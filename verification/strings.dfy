/** The few operations of Go's `strings` package that the server relies on,
  * over strings whose characters stand for octets. Whitespace and case are
  * ASCII-only. */
module Strings {
  import opened Wrappers

  /** ASCII whitespace: space, tab, LF, VT, FF, CR. */
  predicate IsSpace(c: char) {
    c == ' ' || '\t' <= c <= '\r'
  }

  predicate AllSpace(s: string) {
    forall i :: 0 <= i < |s| ==> IsSpace(s[i])
  }

  /** No whitespace at either end. */
  predicate IsTrimmed(s: string) {
    |s| == 0 || (!IsSpace(s[0]) && !IsSpace(s[|s| - 1]))
  }

  /** `t` occurs in `s` starting at position `i`. */
  predicate OccursAt(s: string, t: string, i: nat) {
    i <= |s| && t <= s[i..]
  }

  /** strings.Contains: `t` is a contiguous substring of `s`. */
  function Contains(s: string, t: string): (r: bool)
    ensures r <==> exists i: nat :: OccursAt(s, t, i)
    decreases |s|
  {
    if t <= s then
      assert OccursAt(s, t, 0);
      true
    else if |s| == 0 then
      false
    else
      var r := Contains(s[1..], t);
      assert r ==> exists i: nat :: OccursAt(s, t, i) by {
        if r {
          var i: nat :| OccursAt(s[1..], t, i);
          assert s[1..][i..] == s[i + 1..];
          assert OccursAt(s, t, i + 1);
        }
      }
      assert (exists i: nat :: OccursAt(s, t, i)) ==> r by {
        if exists i: nat :: OccursAt(s, t, i) {
          var i: nat :| OccursAt(s, t, i);
          assert i != 0;
          assert s[1..][i - 1..] == s[i..];
          assert OccursAt(s[1..], t, i - 1);
        }
      }
      r
  }

  /** Whatever occurs in `b` occurs in anything ending with `b`. */
  lemma ContainsAfter(a: string, b: string, t: string)
    ensures Contains(b, t) ==> Contains(a + b, t)
  {
    if Contains(b, t) {
      var i: nat :| OccursAt(b, t, i);
      assert (a + b)[|a| + i..] == b[i..];
      assert OccursAt(a + b, t, |a| + i);
    }
  }

  /** strings.ContainsAny: some character of `s` is one of `chars`. */
  function ContainsAny(s: string, chars: string): (r: bool)
    ensures r <==> exists i :: 0 <= i < |s| && s[i] in chars
  {
    if |s| == 0 then false
    else if s[0] in chars then true
    else
      var r := ContainsAny(s[1..], chars);
      assert forall i :: 1 <= i < |s| ==> s[i] == s[1..][i - 1];
      r
  }

  /** strings.IndexByte: position of the first `c` in `s`, if any. */
  function IndexOf(s: string, c: char): (r: Option<nat>)
    ensures r.None? <==> c !in s
    ensures r.Some? ==> r.value < |s| && s[r.value] == c && c !in s[..r.value]
  {
    if |s| == 0 then None
    else if s[0] == c then Some(0)
    else
      match IndexOf(s[1..], c)
      case None => None
      case Some(i) =>
        assert s[..i + 1] == [s[0]] + s[1..][..i];
        Some(i + 1)
  }

  /** Lower-cases one ASCII letter; every other character is unchanged. */
  function LowerChar(c: char): char {
    if 'A' <= c <= 'Z' then (c as int + 32) as char else c
  }

  /** strings.ToLower restricted to ASCII. */
  function ToLower(s: string): (r: string)
    ensures |r| == |s|
    ensures forall i :: 0 <= i < |s| ==> r[i] == LowerChar(s[i])
  {
    seq(|s|, i requires 0 <= i < |s| => LowerChar(s[i]))
  }

  /** Lower-casing is idempotent, so a lower-cased value is its own key. */
  lemma ToLowerIdempotent(s: string)
    ensures ToLower(ToLower(s)) == ToLower(s)
  {
    assert forall i :: 0 <= i < |s| ==> LowerChar(LowerChar(s[i])) == LowerChar(s[i]);
  }

  /** strings.TrimRight(s, "\r\n"): drops every trailing CR and LF. */
  function TrimRightCRLF(s: string): (r: string)
    ensures r <= s
    ensures |r| == 0 || (r[|r| - 1] != '\r' && r[|r| - 1] != '\n')
    ensures forall i :: |r| <= i < |s| ==> s[i] == '\r' || s[i] == '\n'
  {
    if |s| > 0 && (s[|s| - 1] == '\r' || s[|s| - 1] == '\n') then
      TrimRightCRLF(s[..|s| - 1])
    else
      s
  }

  /** Removing trailing CR/LF undoes appending them to a line that does not
    * itself end in CR or LF. */
  lemma {:induction false} TrimRightCRLFOf(line: string, tail: string)
    requires |line| == 0 || (line[|line| - 1] != '\r' && line[|line| - 1] != '\n')
    requires forall i :: 0 <= i < |tail| ==> tail[i] == '\r' || tail[i] == '\n'
    ensures TrimRightCRLF(line + tail) == line
    decreases |tail|
  {
    if |tail| == 0 {
      assert line + tail == line;
    } else {
      assert (line + tail)[..|line + tail| - 1] == line + tail[..|tail| - 1];
      TrimRightCRLFOf(line, tail[..|tail| - 1]);
    }
  }

  /** Number of whitespace characters at the start of `s`. */
  function LeadingSpaces(s: string): (n: nat)
    ensures n <= |s|
    ensures forall i :: 0 <= i < n ==> IsSpace(s[i])
    ensures n == |s| || !IsSpace(s[n])
  {
    if |s| > 0 && IsSpace(s[0]) then 1 + LeadingSpaces(s[1..]) else 0
  }

  /** The end of `s[..e]` once its trailing whitespace (down to `lo`) is dropped. */
  function TrimmedEnd(s: string, lo: nat, e: nat): (n: nat)
    requires lo <= e <= |s|
    ensures lo <= n <= e
    ensures forall i :: n <= i < e ==> IsSpace(s[i])
    ensures n == lo || !IsSpace(s[n - 1])
    decreases e
  {
    if e > lo && IsSpace(s[e - 1]) then TrimmedEnd(s, lo, e - 1) else e
  }

  /** strings.TrimSpace: removes whitespace at both ends, and only there. */
  function TrimSpace(s: string): (r: string)
    ensures IsTrimmed(r)
    ensures var lo := LeadingSpaces(s);
            lo + |r| <= |s| && r == s[lo..lo + |r|]
            && (forall i :: 0 <= i < lo ==> IsSpace(s[i]))
            && (forall i :: lo + |r| <= i < |s| ==> IsSpace(s[i]))
  {
    var lo := LeadingSpaces(s);
    var hi := TrimmedEnd(s, lo, |s|);
    s[lo..hi]
  }

  /** A string without whitespace at its ends trims to itself. */
  lemma TrimSpaceOfTrimmed(s: string)
    requires IsTrimmed(s)
    ensures TrimSpace(s) == s
  {
    assert LeadingSpaces(s) == 0;
  }

  /** Leading whitespace before a trimmed string is all that TrimSpace removes. */
  lemma {:induction false} TrimSpaceAfterSpaces(sp: string, s: string)
    requires AllSpace(sp) && IsTrimmed(s)
    ensures TrimSpace(sp + s) == s
  {
    var w := sp + s;
    LeadingSpacesAfterSpaces(sp, s);
    if |s| > 0 {
      assert TrimmedEnd(w, |sp|, |w|) == |w|;
    }
    assert w[|sp|..] == s;
  }

  lemma {:induction false} LeadingSpacesAfterSpaces(sp: string, s: string)
    requires AllSpace(sp) && IsTrimmed(s)
    ensures LeadingSpaces(sp + s) == |sp|
    decreases |sp|
  {
    if |sp| > 0 {
      assert (sp + s)[1..] == sp[1..] + s;
      LeadingSpacesAfterSpaces(sp[1..], s);
    } else {
      assert sp + s == s;
    }
  }

  /** strings.Join with a one-character separator. */
  function Join(parts: seq<string>, sep: char): string
  {
    if |parts| == 0 then ""
    else if |parts| == 1 then parts[0]
    else parts[0] + [sep] + Join(parts[1..], sep)
  }

  lemma JoinThree(a: string, b: string, c: string, sep: char)
    ensures Join([a, b, c], sep) == a + [sep] + b + [sep] + c
  {
    assert [a, b, c][1..] == [b, c];
    assert [b, c][1..] == [c];
    assert Join([c], sep) == c;
    assert Join([b, c], sep) == b + [sep] + c;
    assert Join([a, b, c], sep) == a + [sep] + (b + [sep] + c);
  }

  /** strings.Split with a one-character separator: the pieces between the
    * separators, so there is always one more piece than separators. */
  function Split(s: string, sep: char): (parts: seq<string>)
    ensures |parts| == multiset(s)[sep] + 1
    ensures forall i :: 0 <= i < |parts| ==> sep !in parts[i]
    ensures Join(parts, sep) == s
    decreases |s|
  {
    match IndexOf(s, sep)
    case None =>
      assert multiset(s)[sep] == 0;
      [s]
    case Some(i) =>
      var rest := Split(s[i + 1..], sep);
      assert s == s[..i] + [sep] + s[i + 1..];
      assert multiset(s) == multiset(s[..i]) + multiset([sep]) + multiset(s[i + 1..]);
      assert multiset(s[..i])[sep] == 0;
      [s[..i]] + rest
  }

  /** Splitting a joined list of separator-free pieces gives the pieces back. */
  lemma {:induction false} SplitJoin(parts: seq<string>, sep: char)
    requires |parts| >= 1
    requires forall i :: 0 <= i < |parts| ==> sep !in parts[i]
    ensures Split(Join(parts, sep), sep) == parts
    decreases |parts|
  {
    if |parts| == 1 {
      assert IndexOf(parts[0], sep).None?;
    } else {
      var s := Join(parts, sep);
      var tail := Join(parts[1..], sep);
      assert s == parts[0] + [sep] + tail;
      assert s[|parts[0]|] == sep;
      assert s[..|parts[0]|] == parts[0];
      assert IndexOf(s, sep) == Some(|parts[0]|);
      assert s[|parts[0]| + 1..] == tail;
      SplitJoin(parts[1..], sep);
    }
  }

  /** Length of the longest whitespace-free prefix of `s`. */
  function TokenLength(s: string): (n: nat)
    ensures n <= |s|
    ensures forall j :: 0 <= j < n ==> !IsSpace(s[j])
    ensures n == |s| || IsSpace(s[n])
  {
    if |s| == 0 || IsSpace(s[0]) then 0
    else 1 + TokenLength(s[1..])
  }

  predicate NoSpace(t: string) {
    forall j :: 0 <= j < |t| ==> !IsSpace(t[j])
  }

  /** The whitespace-separated tokens of `s`, as fmt's `%s` verb reads them. */
  function Fields(s: string): (fs: seq<string>)
    ensures forall i :: 0 <= i < |fs| ==> |fs[i]| > 0 && NoSpace(fs[i])
    decreases |s|
  {
    if |s| == 0 then []
    else if IsSpace(s[0]) then Fields(s[1..])
    else
      var n := TokenLength(s);
      [s[..n]] + Fields(s[n..])
  }

  /** Leading whitespace does not change the tokens. */
  lemma {:induction false} FieldsAfterSpaces(sp: string, s: string)
    requires AllSpace(sp)
    ensures Fields(sp + s) == Fields(s)
    decreases |sp|
  {
    if |sp| > 0 {
      assert (sp + s)[1..] == sp[1..] + s;
      FieldsAfterSpaces(sp[1..], s);
    } else {
      assert sp + s == s;
    }
  }

  /** A non-empty token followed by whitespace is read as one field. */
  lemma FieldsCons(t: string, c: char, s: string)
    requires |t| > 0 && NoSpace(t) && IsSpace(c)
    ensures Fields(t + [c] + s) == [t] + Fields(s)
  {
    var w := t + [c] + s;
    TokenLengthPrefix(t, c, s);
    assert w[..|t|] == t;
    assert w[|t|..] == [c] + s;
    assert ([c] + s)[1..] == s;
  }

  lemma {:induction false} TokenLengthPrefix(t: string, c: char, s: string)
    requires NoSpace(t) && IsSpace(c)
    ensures TokenLength(t + [c] + s) == |t|
    decreases |t|
  {
    if |t| > 0 {
      assert (t + [c] + s)[1..] == t[1..] + [c] + s;
      TokenLengthPrefix(t[1..], c, s);
    }
  }
}
