/**
 * The string handling the booking form relies on: Python's `str.strip()`,
 * `int()` for a doctor id typed into the form (simplified to an optional sign
 * followed by ASCII decimal digits) and `str()` of an integer, used when a
 * row id is shown in a listing.
 */
module Text {
  import opened Options

  /** The characters for which Python's `str.isspace()` holds. */
  predicate IsSpace(c: char) {
    || ('\t' <= c <= '\r')
    || ('\U{1C}' <= c <= '\U{1F}')
    || c == ' '
    || c == '\U{85}'
    || c == '\U{A0}'
    || c == '\U{1680}'
    || ('\U{2000}' <= c <= '\U{200A}')
    || c == '\U{2028}'
    || c == '\U{2029}'
    || c == '\U{202F}'
    || c == '\U{205F}'
    || c == '\U{3000}'
  }

  predicate AllSpace(s: string) {
    forall i :: 0 <= i < |s| ==> IsSpace(s[i])
  }

  /** The length of the longest all-whitespace prefix of `s`. */
  function LeadingSpace(s: string): (n: nat)
    ensures n <= |s|
    ensures AllSpace(s[..n])
    ensures n < |s| ==> !IsSpace(s[n])
  {
    if s == [] || !IsSpace(s[0]) then 0
    else
      var n := 1 + LeadingSpace(s[1..]);
      assert s[..n] == [s[0]] + s[1..][..n - 1];
      n
  }

  /** The length of the longest all-whitespace suffix of `s`. */
  function TrailingSpace(s: string): (n: nat)
    ensures n <= |s|
    ensures AllSpace(s[|s| - n..])
    ensures n < |s| ==> !IsSpace(s[|s| - 1 - n])
  {
    if s == [] || !IsSpace(s[|s| - 1]) then 0
    else
      var t := s[..|s| - 1];
      var m := TrailingSpace(t);
      assert s[|s| - 1 - m..] == t[|t| - m..] + [s[|s| - 1]];
      AllSpaceConcat(t[|t| - m..], [s[|s| - 1]]);
      assert 1 + m < |s| ==> s[|s| - 2 - m] == t[|t| - 1 - m];
      1 + m
  }

  lemma AllSpaceConcat(a: string, b: string)
    requires AllSpace(a) && AllSpace(b)
    ensures AllSpace(a + b)
  {
  }

  /** Python's `s.strip()`: `s` without its leading and trailing whitespace. */
  function Strip(s: string): (r: string)
    ensures |r| <= |s|
    ensures r == [] <==> AllSpace(s)
    ensures r != [] ==> !IsSpace(r[0]) && !IsSpace(r[|r| - 1])
  {
    var k := LeadingSpace(s);
    var rest := s[k..];
    var r := rest[..|rest| - TrailingSpace(rest)];
    assert r == [] ==> AllSpace(s) by {
      if r == [] {
        assert k == |s|;
        assert s[..k] == s;
      }
    }
    r
  }

  /** What stripping keeps is one contiguous piece of the input... */
  lemma StripIsSlice(s: string)
    ensures Strip(s) == s[LeadingSpace(s)..LeadingSpace(s) + |Strip(s)|]
  {
    var k := LeadingSpace(s);
    var rest := s[k..];
    var m := |rest| - TrailingSpace(rest);
    assert Strip(s) == rest[..m];
    assert rest[..m] == s[k..k + m];
  }

  /** ...and what it drops on either side of that piece is whitespace. */
  lemma StripDropsOnlySpace(s: string)
    ensures AllSpace(s[..LeadingSpace(s)])
    ensures AllSpace(s[LeadingSpace(s) + |Strip(s)|..])
  {
    var k := LeadingSpace(s);
    var rest := s[k..];
    var t := TrailingSpace(rest);
    assert Strip(s) == rest[..|rest| - t];
    assert s[k + |rest| - t..] == rest[|rest| - t..];
  }

  /** A string that starts and ends with non-whitespace is its own strip. */
  lemma StripTrimmed(s: string)
    requires s != [] && !IsSpace(s[0]) && !IsSpace(s[|s| - 1])
    ensures Strip(s) == s
  {
    assert LeadingSpace(s) == 0;
    assert TrailingSpace(s) == 0;
  }

  lemma StripIdempotent(s: string)
    ensures Strip(Strip(s)) == Strip(s)
  {
    if Strip(s) != [] {
      StripTrimmed(Strip(s));
    }
  }

  predicate IsDigit(c: char) {
    '0' <= c <= '9'
  }

  predicate AllDigits(s: string) {
    forall i :: 0 <= i < |s| ==> IsDigit(s[i])
  }

  function DigitValue(c: char): nat
    requires IsDigit(c)
  {
    (c as int) - ('0' as int)
  }

  function DigitChar(d: nat): (c: char)
    requires d < 10
    ensures IsDigit(c) && DigitValue(c) == d
  {
    ('0' as int + d) as char
  }

  /** The value of a string of decimal digits, most significant first. */
  function DigitsValue(s: string): nat
    requires AllDigits(s)
  {
    if s == [] then 0
    else 10 * DigitsValue(s[..|s| - 1]) + DigitValue(s[|s| - 1])
  }

  /**
   * The most digits `int()` converts from a string: CPython's default
   * `sys.get_int_max_str_digits()`; a longer numeral raises `ValueError`.
   */
  const MaxStrDigits := 4300

  /**
   * `int(s)` on a string that has already been stripped: an optional `+` or
   * `-` and then one to `MaxStrDigits` decimal digits; anything else is
   * rejected.
   */
  function ParseInt(s: string): (r: Option<int>)
    ensures r.Some? <==>
              && s != []
              && (IsDigit(s[0]) || ((s[0] == '+' || s[0] == '-') && |s| > 1))
              && (forall i :: 0 < i < |s| ==> IsDigit(s[i]))
              && |s| - (if IsDigit(s[0]) then 0 else 1) <= MaxStrDigits
    ensures s != [] && AllDigits(s) && |s| <= MaxStrDigits ==> r == Some(DigitsValue(s))
    ensures 1 < |s| <= MaxStrDigits + 1 && s[0] == '+' && AllDigits(s[1..]) ==>
              r == Some(DigitsValue(s[1..]))
    ensures 1 < |s| <= MaxStrDigits + 1 && s[0] == '-' && AllDigits(s[1..]) ==>
              r == Some(-(DigitsValue(s[1..]) as int))
  {
    if s == [] then None
    else if s[0] == '+' || s[0] == '-' then
      var digits := s[1..];
      if digits != [] && AllDigits(digits) && |digits| <= MaxStrDigits then
        Some(if s[0] == '-' then -(DigitsValue(digits) as int) else DigitsValue(digits))
      else
        assert digits != [] && |digits| <= MaxStrDigits ==> exists i :: 0 <= i < |digits| && !IsDigit(digits[i]);
        None
    else if AllDigits(s) && |s| <= MaxStrDigits then Some(DigitsValue(s))
    else None
  }

  /** Python's `str(n)` for a natural number: its decimal digits. */
  function NatToString(n: nat): (s: string)
    ensures s != [] && AllDigits(s)
    ensures DigitsValue(s) == n
    ensures s[0] == '0' ==> n == 0
    ensures |s| > 1 ==> s[0] != '0'
  {
    if n < 10 then [DigitChar(n)]
    else
      var s := NatToString(n / 10) + [DigitChar(n % 10)];
      assert s[..|s| - 1] == NatToString(n / 10);
      s
  }

  /** Python's `str(n)` for an integer: its digits, after a `-` when it is negative. */
  function IntToString(n: int): (s: string)
    ensures n >= 0 ==> AllDigits(s) && DigitsValue(s) == n
    ensures n < 0 ==> |s| > 1 && s[0] == '-' && AllDigits(s[1..]) && DigitsValue(s[1..]) == -n
    ensures s != [] && (IsDigit(s[0]) || s[0] == '-') && IsDigit(s[|s| - 1])
    ensures var d := if n < 0 then s[1..] else s; |d| > 1 ==> d[0] != '0'
  {
    if n < 0 then
      var s := "-" + NatToString(-n);
      assert s[1..] == NatToString(-n);
      s
    else NatToString(n)
  }

  function Pow10(k: nat): (p: nat)
    ensures p >= 1
  {
    if k == 0 then 1 else 10 * Pow10(k - 1)
  }

  /** A number below `10^k` has at most `k` digits. */
  lemma {:induction false} NatToStringLength(n: nat, k: nat)
    requires 0 < k && n < Pow10(k)
    ensures |NatToString(n)| <= k
  {
    if n >= 10 {
      assert k > 1;
      assert n / 10 < Pow10(k - 1);
      NatToStringLength(n / 10, k - 1);
    }
  }

  /**
   * What `str()` renders, `strip()` keeps and `int()` reads back, for every
   * number whose rendering has at most `MaxStrDigits` digits.
   */
  lemma {:induction false} ParseIntRoundTrip(n: int)
    requires |IntToString(n)| - (if n < 0 then 1 else 0) <= MaxStrDigits
    ensures Strip(IntToString(n)) == IntToString(n)
    ensures ParseInt(IntToString(n)) == Some(n)
  {
    var s := IntToString(n);
    RenderedIsTrimmed(n);
    if n < 0 {
      NegativeReadsBack(s, -n);
    } else {
      assert AllDigits(s) && |s| <= MaxStrDigits;
    }
  }

  lemma RenderedIsTrimmed(n: int)
    ensures Strip(IntToString(n)) == IntToString(n)
  {
    var s := IntToString(n);
    assert !IsSpace(s[0]) && !IsSpace(s[|s| - 1]);
    StripTrimmed(s);
  }

  lemma NegativeReadsBack(s: string, m: nat)
    requires 1 < |s| <= MaxStrDigits + 1 && s[0] == '-'
    requires AllDigits(s[1..]) && DigitsValue(s[1..]) == m
    ensures ParseInt(s) == Some(-(m as int))
  {
  }

  lemma Pow10Of19()
    ensures Pow10(19) == 10_000_000_000_000_000_000
  {
    assert Pow10(5) == 100_000;
    assert Pow10(10) == 10_000_000_000;
    assert Pow10(15) == 1_000_000_000_000_000;
  }

  /** A number below `10^k` in magnitude, for `k` up to the limit, renders within the limit. */
  lemma ShortRendersWithinLimit(n: int, k: nat)
    requires 0 < k <= MaxStrDigits && -(Pow10(k) as int) < n < Pow10(k)
    ensures |IntToString(n)| - (if n < 0 then 1 else 0) <= MaxStrDigits
  {
    var m: nat := if n < 0 then -n else n;
    NatToStringLength(m, k);
    assert |IntToString(n)| == |NatToString(m)| + (if n < 0 then 1 else 0);
  }
}
