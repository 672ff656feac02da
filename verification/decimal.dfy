/** Decimal conversions of Go's `strconv.Itoa`, `%d` and `strconv.Atoi` on a
  * 64-bit platform. */
module Decimal {
  import opened Wrappers

  const MinInt64: int := -0x8000_0000_0000_0000
  const MaxInt64: int := 0x7fff_ffff_ffff_ffff

  predicate IsDigit(c: char) {
    '0' <= c <= '9'
  }

  predicate AllDigits(s: string) {
    forall i :: 0 <= i < |s| ==> IsDigit(s[i])
  }

  function DigitChar(d: nat): (c: char)
    requires d < 10
    ensures IsDigit(c) && c as int - '0' as int == d
  {
    ('0' as int + d) as char
  }

  /** The number a string of decimal digits denotes (most significant first). */
  function DigitsValue(s: string): nat
    requires AllDigits(s)
  {
    if |s| == 0 then 0
    else DigitsValue(s[..|s| - 1]) * 10 + (s[|s| - 1] as int - '0' as int)
  }

  /** The shortest decimal rendering of a natural number: no leading zero. */
  function NatToString(n: nat): (s: string)
    ensures |s| >= 1 && AllDigits(s)
    ensures |s| > 1 ==> s[0] != '0'
    decreases n
  {
    if n < 10 then [DigitChar(n)]
    else NatToString(n / 10) + [DigitChar(n % 10)]
  }

  /** strconv.Itoa and `%d`: a minus sign for negative numbers, then the digits. */
  function Itoa(n: int): (s: string)
    ensures |s| >= 1
    ensures n >= 0 ==> AllDigits(s)
    ensures n < 0 ==> s[0] == '-' && AllDigits(s[1..])
  {
    if n < 0 then "-" + NatToString(-n) else NatToString(n)
  }

  /** The text after an optional leading sign. */
  function Unsigned(s: string): string {
    if |s| > 0 && (s[0] == '+' || s[0] == '-') then s[1..] else s
  }

  /** The number an optional sign followed by decimal digits denotes. */
  function SignedValue(s: string): int
    requires AllDigits(Unsigned(s))
  {
    var magnitude: int := DigitsValue(Unsigned(s));
    if |s| > 0 && s[0] == '-' then -magnitude else magnitude
  }

  /** Why strconv.Atoi refused its input. */
  datatype NumError = Syntax | Range

  /** strconv.Atoi: an optional sign, then at least one decimal digit, and the
    * value must fit in a 64-bit signed integer. */
  function Atoi(s: string): (r: Result<int, NumError>)
    ensures r.Ok? ==> MinInt64 <= r.value <= MaxInt64
    ensures r.Ok? ==> |s| > 0 && (IsDigit(s[0]) || s[0] == '+' || s[0] == '-')
    ensures r.Ok? && r.value < 0 ==> s[0] == '-'
    ensures r.Err? && r.error == Syntax ==> !AllDigits(s) || |s| == 0
    ensures r.Ok? <==> |Unsigned(s)| > 0 && AllDigits(Unsigned(s)) && MinInt64 <= SignedValue(s) <= MaxInt64
    ensures r.Ok? ==> r.value == SignedValue(s)
    ensures r.Err? && r.error == Range ==> |Unsigned(s)| > 0 && AllDigits(Unsigned(s))
  {
    if |s| == 0 then Err(Syntax)
    else
      var signed := s[0] == '+' || s[0] == '-';
      var digits := if signed then s[1..] else s;
      if |digits| == 0 || !AllDigits(digits) then Err(Syntax)
      else
        var magnitude: int := DigitsValue(digits);
        var v := if s[0] == '-' then -magnitude else magnitude;
        if MinInt64 <= v <= MaxInt64 then Ok(v) else Err(Range)
  }

  /** Digits printed by NatToString read back as the same number. */
  lemma {:induction false} DigitsValueOfNatToString(n: nat)
    ensures DigitsValue(NatToString(n)) == n
    decreases n
  {
    var s := NatToString(n);
    if n >= 10 {
      DigitsValueOfNatToString(n / 10);
      assert s[..|s| - 1] == NatToString(n / 10);
    }
  }

  /** Atoi inverts Itoa on every 64-bit integer, so a Content-Length this
    * server writes is one it would accept. */
  lemma AtoiOfItoa(n: int)
    requires MinInt64 <= n <= MaxInt64
    ensures Atoi(Itoa(n)) == Ok(n)
  {
    var s := Itoa(n);
    if n < 0 {
      DigitsValueOfNatToString(-n);
      assert s == "-" + NatToString(-n);
      assert s[1..] == NatToString(-n);
      assert s[0] == '-';
    } else {
      DigitsValueOfNatToString(n);
      assert s == NatToString(n);
      assert IsDigit(s[0]);
    }
  }

  /** Three-digit numbers, such as HTTP status codes, print as three digits. */
  lemma ItoaThreeDigits(n: int)
    requires 100 <= n <= 999
    ensures Itoa(n) == [DigitChar(n / 100), DigitChar(n / 10 % 10), DigitChar(n % 10)]
  {
    assert NatToString(n / 100) == [DigitChar(n / 100)];
    assert NatToString(n / 10) == [DigitChar(n / 100), DigitChar(n / 10 % 10)];
  }

  /** Rendering is injective: different numbers never print alike. */
  lemma ItoaInjective(a: int, b: int)
    requires MinInt64 <= a <= MaxInt64 && MinInt64 <= b <= MaxInt64
    requires Itoa(a) == Itoa(b)
    ensures a == b
  {
    AtoiOfItoa(a);
    AtoiOfItoa(b);
  }
}
