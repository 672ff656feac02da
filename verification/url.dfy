/** The part of Go's net/url parser the file handler relies on: splitting a
  * request target into scheme, authority, path, query and fragment, and
  * percent-decoding the path and fragment. Authority validation (user
  * info, host syntax, port digits) is not modelled. */
module Url {
  import opened Wrappers
  import opened Strings
  import opened Decimal

  datatype Url = Url(
    scheme: string,
    opaquePart: string,
    authority: string,
    path: string,
    rawQuery: string,
    fragment: string)

  datatype UrlError =
    | ControlCharacter
    | MissingScheme
    | ColonInFirstSegment
    | InvalidEscape(at: string)

  /** The octets net/url refuses anywhere before the fragment. */
  predicate IsControl(c: char) {
    c < ' ' || c == '\U{7F}'
  }

  predicate HasControl(s: string) {
    exists i :: 0 <= i < |s| && IsControl(s[i])
  }

  function HasControlIn(s: string): (r: bool)
    ensures r <==> HasControl(s)
  {
    if |s| == 0 then false
    else
      assert forall i :: 1 <= i < |s| ==> s[i] == s[1..][i - 1];
      IsControl(s[0]) || HasControlIn(s[1..])
  }

  /** What strings.Cut returns: the text before and after the first `c`. */
  function Before(s: string, c: char): (r: string)
    ensures c !in r && r <= s
    ensures c !in s ==> r == s
    ensures c in s ==> |r| < |s| && s[|r|] == c
  {
    match IndexOf(s, c)
    case None => s
    case Some(i) => s[..i]
  }

  function After(s: string, c: char): (r: string)
    ensures c in s ==> s == Before(s, c) + [c] + r
    ensures c !in s ==> r == ""
  {
    match IndexOf(s, c)
    case None => ""
    case Some(i) => s[i + 1..]
  }

  predicate IsLetter(c: char) {
    'a' <= c <= 'z' || 'A' <= c <= 'Z'
  }

  /** Characters allowed in a scheme after its first letter. */
  predicate IsSchemeTail(c: char) {
    IsLetter(c) || IsDigit(c) || c == '+' || c == '-' || c == '.'
  }

  predicate IsScheme(s: string) {
    |s| > 0 && IsLetter(s[0]) && forall i :: 0 < i < |s| ==> IsSchemeTail(s[i])
  }

  /** getScheme scanning from position `i`: letters so far, digits and
    * "+-." once past the first octet; a colon ends the scheme; any other
    * octet means there is no scheme. */
  function ScanScheme(s: string, i: nat): (r: Result<(string, string), UrlError>)
    requires i <= |s|
    requires forall j :: 0 <= j < i ==> IsSchemeTail(s[j])
    requires i > 0 ==> IsLetter(s[0])
    ensures r.Err? <==> i == 0 && |s| > 0 && s[0] == ':'
    ensures r.Ok? && r.value.0 != "" ==>
              IsScheme(r.value.0) && s == r.value.0 + ":" + r.value.1
    ensures r.Ok? && r.value.0 == "" ==> r.value.1 == s
    decreases |s| - i
  {
    if i == |s| then Ok(("", s))
    else if IsLetter(s[i]) then ScanScheme(s, i + 1)
    else if IsSchemeTail(s[i]) then
      (if i == 0 then Ok(("", s)) else ScanScheme(s, i + 1))
    else if s[i] == ':' then
      (if i == 0 then Err(MissingScheme)
       else
         assert s == s[..i] + ":" + s[i + 1..];
         Ok((s[..i], s[i + 1..])))
    else Ok(("", s))
  }

  /** getScheme: the scheme and the remainder, or no scheme and the whole
    * input. Only a leading colon is an error. */
  function GetScheme(s: string): (r: Result<(string, string), UrlError>)
    ensures r.Err? <==> |s| > 0 && s[0] == ':'
    ensures r.Ok? && r.value.0 != "" ==>
              IsScheme(r.value.0) && s == r.value.0 + ":" + r.value.1
    ensures r.Ok? && r.value.0 == "" ==> r.value.1 == s
  {
    ScanScheme(s, 0)
  }

  predicate IsHex(c: char) {
    '0' <= c <= '9' || 'a' <= c <= 'f' || 'A' <= c <= 'F'
  }

  function HexValue(c: char): (v: nat)
    requires IsHex(c)
    ensures v < 16
  {
    if '0' <= c <= '9' then c as int - '0' as int
    else if 'a' <= c <= 'f' then c as int - 'a' as int + 10
    else c as int - 'A' as int + 10
  }

  const HexDigits: string := "0123456789ABCDEF"

  /** Every '%' introduces two hex digits. */
  predicate WellEscaped(s: string)
    decreases |s|
  {
    if |s| == 0 then true
    else if s[0] == '%' then |s| >= 3 && IsHex(s[1]) && IsHex(s[2]) && WellEscaped(s[3..])
    else WellEscaped(s[1..])
  }

  /** unescape in path and fragment mode: each "%XY" becomes the octet
    * 0xXY; a '%' without two hex digits after it is an error naming the
    * offending text (at most three octets). '+' stays '+'. */
  function Unescape(s: string): (r: Result<string, UrlError>)
    ensures r.Ok? <==> WellEscaped(s)
    ensures r.Ok? && '%' !in s ==> r.value == s
    decreases |s|
  {
    if |s| == 0 then Ok("")
    else if s[0] == '%' then
      if |s| < 3 || !IsHex(s[1]) || !IsHex(s[2]) then
        Err(InvalidEscape(if |s| > 3 then s[..3] else s))
      else
        var rest :- Unescape(s[3..]);
        Ok([(HexValue(s[1]) * 16 + HexValue(s[2])) as char] + rest)
    else
      var rest :- Unescape(s[1..]);
      Ok([s[0]] + rest)
  }

  /** Percent-encoding every octet: the inverse used to state what
    * Unescape recovers. */
  function Escape(s: string): (e: string)
    requires forall i :: 0 <= i < |s| ==> s[i] < 256 as char
    ensures |e| == 3 * |s|
  {
    if |s| == 0 then ""
    else
      var b := s[0] as int;
      ['%', HexDigits[b / 16], HexDigits[b % 16]] + Escape(s[1..])
  }

  lemma HexDigitsValue(d: nat)
    requires d < 16
    ensures IsHex(HexDigits[d]) && HexValue(HexDigits[d]) == d
  {
  }

  lemma UnescapeTriplet(e: string)
    requires |e| >= 3 && e[0] == '%' && IsHex(e[1]) && IsHex(e[2])
    requires Unescape(e[3..]).Ok?
    ensures Unescape(e) == Ok([(HexValue(e[1]) * 16 + HexValue(e[2])) as char] + Unescape(e[3..]).value)
  {
  }

  /** Decoding undoes percent-encoding of any octet string. */
  lemma {:induction false} UnescapeEscape(s: string)
    requires forall i :: 0 <= i < |s| ==> s[i] < 256 as char
    ensures Unescape(Escape(s)) == Ok(s)
  {
    if |s| > 0 {
      EscapeHead(s);
      UnescapeEscape(s[1..]);
      UnescapeTriplet(Escape(s));
      assert [s[0]] + s[1..] == s;
    }
  }

  /** The first octet escapes to a percent sign and two hex digits that
    * denote it, followed by the escape of the rest. */
  lemma EscapeHead(s: string)
    requires |s| > 0 && forall i :: 0 <= i < |s| ==> s[i] < 256 as char
    ensures var e := Escape(s);
            && |e| >= 3 && e[0] == '%' && IsHex(e[1]) && IsHex(e[2])
            && (HexValue(e[1]) * 16 + HexValue(e[2])) as char == s[0]
            && e[3..] == Escape(s[1..])
  {
    var b := s[0] as int;
    var q, m := b / 16, b % 16;
    assert q * 16 + m == b;
    var hi, lo := HexDigits[q], HexDigits[m];
    HexDigitsValue(q);
    HexDigitsValue(m);
    var e := Escape(s);
    assert e == ['%', hi, lo] + Escape(s[1..]);
    assert e[0] == '%' && e[1] == hi && e[2] == lo;
    assert HexValue(e[1]) * 16 + HexValue(e[2]) == b;
    assert e[3..] == Escape(s[1..]);
  }

  /** url.Parse of a request target (not in request-URI mode): cut off the
    * fragment, refuse control octets, split off the scheme and the query;
    * a scheme followed by no "/" makes the rest opaque; without a scheme
    * a colon in the first segment is an error; "//" (but, without a
    * scheme, not "///") starts an authority that runs to the next "/";
    * finally the path and the fragment are percent-decoded. */
  function Parse(raw: string): (r: Result<Url, UrlError>)
    ensures r.Ok? ==> !HasControl(Before(raw, '#'))
    ensures HasControl(Before(raw, '#')) ==> r == Err(ControlCharacter)
  {
    ParseTarget(Before(raw, '#'), After(raw, '#'))
  }

  /** The target without its fragment, and the raw fragment. */
  function ParseTarget(u: string, frag: string): Result<Url, UrlError> {
    if HasControlIn(u) then Err(ControlCharacter)
    else
      var (scheme, afterScheme) :- GetScheme(u);
      ParseAfterScheme(scheme, afterScheme, frag)
  }

  function ParseAfterScheme(scheme: string, afterScheme: string, frag: string): Result<Url, UrlError> {
    ParseHierarchy(scheme, Before(afterScheme, '?'), After(afterScheme, '?'), frag)
  }

  /** What follows the scheme once the query is split off. */
  function ParseHierarchy(scheme: string, rest: string, query: string, frag: string): Result<Url, UrlError> {
    if scheme != "" && !("/" <= rest) then
      var fragment :- Unescape(frag);
      Ok(Url(ToLower(scheme), rest, "", "", query, fragment))
    else if scheme == "" && !("/" <= rest) && ':' in Before(rest, '/') then
      Err(ColonInFirstSegment)
    else
      var (authority, pathPart) :=
        if "//" <= rest && (scheme != "" || !("///" <= rest)) then
          var a := rest[2..];
          (Before(a, '/'), a[|Before(a, '/')|..])
        else ("", rest);
      var path :- Unescape(pathPart);
      var fragment :- Unescape(frag);
      Ok(Url(ToLower(scheme), "", authority, path, query, fragment))
  }

  // ------------------------------------------------------------ lemmas

  lemma {:induction false} ScanSchemeStopsAtQuery(p: string, q: string, i: nat)
    requires '?' !in p
    requires i <= |p|
    requires forall j :: 0 <= j < i ==> IsSchemeTail(p[j])
    requires i > 0 ==> IsLetter(p[0])
    ensures forall j :: 0 <= j < i ==> (p + "?" + q)[j] == p[j]
    ensures ScanScheme(p + "?" + q, i) ==
              match ScanScheme(p, i)
              case Err(e) => Err(e)
              case Ok((scheme, rest)) => Ok((scheme, rest + "?" + q))
    decreases |p| - i
  {
    var s := p + "?" + q;
    assert forall j :: 0 <= j < |p| ==> s[j] == p[j];
    if i == |p| {
      assert s[i] == '?';
    } else {
      assert s[i] == p[i];
      if p[i] == ':' && i > 0 {
        assert s[..i] == p[..i];
        assert s[i + 1..] == p[i + 1..] + "?" + q;
      } else if IsLetter(p[i]) || (IsSchemeTail(p[i]) && i > 0) {
        ScanSchemeStopsAtQuery(p, q, i + 1);
      }
    }
  }

  lemma NoControlConcat(a: string, b: string)
    ensures HasControl(a + b) <==> HasControl(a) || HasControl(b)
  {
    if HasControl(a) {
      var i :| 0 <= i < |a| && IsControl(a[i]);
      assert (a + b)[i] == a[i];
    }
    if HasControl(b) {
      var i :| 0 <= i < |b| && IsControl(b[i]);
      assert (a + b)[|a| + i] == b[i];
    }
    if HasControl(a + b) {
      var i :| 0 <= i < |a + b| && IsControl((a + b)[i]);
      if i < |a| { assert a[i] == (a + b)[i]; } else { assert b[i - |a|] == (a + b)[i]; }
    }
  }

  lemma BeforeOfJoin(a: string, c: char, b: string)
    requires c !in a
    ensures Before(a + [c] + b, c) == a
    ensures After(a + [c] + b, c) == b
  {
    var s := a + [c] + b;
    assert s[|a|] == c;
    assert s[..|a|] == a;
    assert s[|a| + 1..] == b;
  }

  lemma ParseHierarchyQuery(scheme: string, rest: string, q: string, frag: string)
    ensures ParseHierarchy(scheme, rest, q, frag) ==
              match ParseHierarchy(scheme, rest, "", frag)
              case Err(e) => Err(e)
              case Ok(url) => Ok(url.(rawQuery := q))
  {
  }

  /** A query string changes nothing but the parsed query: the same path,
    * authority and scheme, and the same errors. */
  lemma ParseIgnoresQuery(p: string, q: string)
    requires '?' !in p && '#' !in p && '#' !in q
    requires !HasControl(q)
    ensures Parse(p + "?" + q) ==
              match Parse(p)
              case Err(e) => Err(e)
              case Ok(url) => Ok(url.(rawQuery := q))
  {
    var s := p + "?" + q;
    assert '#' !in s;
    assert Before(s, '#') == s && After(s, '#') == "";
    assert Before(p, '#') == p && After(p, '#') == "";
    NoControlConcat(p + "?", q);
    NoControlConcat(p, "?");
    assert !IsControl('?');
    assert !HasControl("?");
    ScanSchemeStopsAtQuery(p, q, 0);
    match GetScheme(p)
    case Err(_) =>
    case Ok((scheme, afterScheme)) =>
      assert '?' !in afterScheme by {
        if scheme != "" {
          assert p == scheme + ":" + afterScheme;
          assert forall j :: 0 <= j < |afterScheme| ==> afterScheme[j] == p[|scheme| + 1 + j];
        }
      }
      BeforeOfJoin(afterScheme, '?', q);
      assert GetScheme(s) == Ok((scheme, afterScheme + "?" + q));
      assert ParseAfterScheme(scheme, afterScheme + "?" + q, "") == ParseHierarchy(scheme, afterScheme, q, "");
      assert ParseAfterScheme(scheme, afterScheme, "") == ParseHierarchy(scheme, afterScheme, "", "");
      ParseHierarchyQuery(scheme, afterScheme, q, "");
  }

  /** A fragment is decoded on its own: the path, authority and query are
    * those of the target without it, and only a malformed escape in the
    * fragment adds an error. */
  lemma ParseFragment(p: string, f: string)
    requires '#' !in p
    ensures Parse(p + "#" + f) ==
              match Parse(p)
              case Err(e) => Err(e)
              case Ok(url) =>
                match Unescape(f)
                case Err(e) => Err(e)
                case Ok(fragment) => Ok(url.(fragment := fragment))
  {
    BeforeOfJoin(p, '#', f);
    assert Before(p, '#') == p && After(p, '#') == "";
    assert Parse(p + "#" + f) == ParseTarget(p, f);
    assert Parse(p) == ParseTarget(p, "");
    ParseTargetFragment(p, f);
  }

  lemma ParseTargetFragment(u: string, f: string)
    ensures ParseTarget(u, f) ==
              match ParseTarget(u, "")
              case Err(e) => Err(e)
              case Ok(url) =>
                match Unescape(f)
                case Err(e) => Err(e)
                case Ok(fragment) => Ok(url.(fragment := fragment))
  {
    if !HasControlIn(u) {
      match GetScheme(u)
      case Err(_) =>
      case Ok((scheme, afterScheme)) =>
        ParseHierarchyFragment(scheme, Before(afterScheme, '?'), After(afterScheme, '?'), f);
    }
  }

  lemma ParseHierarchyFragment(scheme: string, rest: string, query: string, f: string)
    ensures ParseHierarchy(scheme, rest, query, f) ==
              match ParseHierarchy(scheme, rest, query, "")
              case Err(e) => Err(e)
              case Ok(url) =>
                match Unescape(f)
                case Err(e) => Err(e)
                case Ok(fragment) => Ok(url.(fragment := fragment))
  {
    assert Unescape("") == Ok("");
  }
}
