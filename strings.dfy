/**
 * Character-level helpers shared by the parsers and formatters: ASCII digits,
 * decimal rendering of integers, ASCII case folding and whitespace trimming.
 */
module Strings {

  predicate IsDigit(c: char) {
    '0' <= c <= '9'
  }

  predicate AllDigits(s: string) {
    forall i :: 0 <= i < |s| ==> IsDigit(s[i])
  }

  function DigitValue(c: char): nat
    requires IsDigit(c)
  {
    c as int - '0' as int
  }

  function DigitChar(n: nat): char
    requires n < 10
  {
    ('0' as int + n) as char
  }

  /** The value of a string of decimal digits, most significant first. */
  function DigitsValue(s: string): nat
    requires AllDigits(s)
  {
    if |s| == 0 then 0 else DigitsValue(s[..|s| - 1]) * 10 + DigitValue(s[|s| - 1])
  }

  lemma DigitsValueAppend(s: string, c: char)
    requires AllDigits(s) && IsDigit(c)
    ensures AllDigits(s + [c])
    ensures DigitsValue(s + [c]) == DigitsValue(s) * 10 + DigitValue(c)
  {
    assert (s + [c])[..|s|] == s;
  }

  /** Decimal rendering of a natural number without leading zeros (Rust's `{}`). */
  function NatToDigits(n: nat): (r: string)
    ensures AllDigits(r) && 1 <= |r|
    ensures DigitsValue(r) == n
    ensures |r| > 1 ==> r[0] != '0'
    ensures n < 100 ==> |r| <= 2
  {
    if n < 10 then
      [DigitChar(n)]
    else
      var prefix := NatToDigits(n / 10);
      DigitsValueAppend(prefix, DigitChar(n % 10));
      prefix + [DigitChar(n % 10)]
  }

  /** Decimal rendering of an integer with a leading '-' when negative (Rust's `{}` on i32). */
  function IntToString(n: int): (r: string)
    ensures 1 <= |r|
    ensures n >= 0 <==> AllDigits(r)
    ensures n < 0 ==> r[0] == '-' && r[1..] == NatToDigits(-n)
    ensures n >= 0 ==> r == NatToDigits(n)
  {
    if n < 0 then
      var r := "-" + NatToDigits(-n);
      assert !IsDigit(r[0]);
      r
    else
      NatToDigits(n)
  }

  function Pow10(k: nat): (r: nat)
    ensures r >= 1
  {
    if k == 0 then 1 else 10 * Pow10(k - 1)
  }

  /** Exactly `width` decimal digits of `n`, most significant first, zero-padded on the left. */
  function FixedDigits(n: nat, width: nat): (r: string)
    requires n < Pow10(width)
    ensures |r| == width && AllDigits(r)
  {
    if width == 0 then "" else FixedDigits(n / 10, width - 1) + [DigitChar(n % 10)]
  }

  /** A fixed-width rendering reads back as the value it renders. */
  lemma {:induction false} FixedDigitsValue(n: nat, width: nat)
    requires n < Pow10(width)
    ensures DigitsValue(FixedDigits(n, width)) == n
  {
    if width > 0 {
      var q, d := n / 10, n % 10;
      assert q < Pow10(width - 1);
      FixedDigitsValue(q, width - 1);
      var init := FixedDigits(q, width - 1);
      assert FixedDigits(n, width) == init + [DigitChar(d)];
      DigitsValueAppend(init, DigitChar(d));
      assert DigitValue(DigitChar(d)) == d;
    }
  }

  /** A digit string of length `w` denotes a value below 10^w. */
  lemma {:induction false} DigitsValueBound(s: string)
    requires AllDigits(s)
    ensures DigitsValue(s) < Pow10(|s|)
  {
    if |s| > 0 {
      DigitsValueBound(s[..|s| - 1]);
    }
  }

  /** Every digit string is the fixed-width rendering of its own value at its own length. */
  lemma {:induction false} FixedDigitsOfValue(s: string)
    requires AllDigits(s)
    ensures DigitsValue(s) < Pow10(|s|)
    ensures FixedDigits(DigitsValue(s), |s|) == s
  {
    DigitsValueBound(s);
    if |s| > 0 {
      var init, c := s[..|s| - 1], s[|s| - 1];
      FixedDigitsOfValue(init);
      var n := DigitsValue(s);
      assert n / 10 == DigitsValue(init) && n % 10 == DigitValue(c);
      assert DigitChar(DigitValue(c)) == c;
      assert s == init + [c];
    }
  }

  /** Rust's `{:02}` on a value below 100: exactly two digits, zero-padded. */
  function Pad2(n: nat): (r: string)
    requires n < 100
    ensures |r| == 2 && AllDigits(r)
    ensures DigitsValue(r) == n
  {
    FixedDigitsValue(n, 2);
    FixedDigits(n, 2)
  }

  /** ASCII case folding; characters outside 'A'..'Z' are kept. */
  function LowerChar(c: char): char {
    if 'A' <= c <= 'Z' then (c as int + 32) as char else c
  }

  function AsciiLower(s: string): (r: string)
    ensures |r| == |s|
    ensures forall i :: 0 <= i < |s| ==> r[i] == LowerChar(s[i])
  {
    seq(|s|, i requires 0 <= i < |s| => LowerChar(s[i]))
  }

  /** The ASCII members of the Unicode White_Space property. */
  predicate IsSpace(c: char) {
    c == ' ' || c == '\t' || c == '\n' || c == '\r' || c == '\U{B}' || c == '\U{C}'
  }

  predicate AllSpace(s: string) {
    forall i :: 0 <= i < |s| ==> IsSpace(s[i])
  }

  /** Number of leading whitespace characters. */
  function LeadingSpace(s: string): (n: nat)
    ensures n <= |s|
    ensures AllSpace(s[..n])
    ensures n < |s| ==> !IsSpace(s[n])
  {
    if |s| == 0 || !IsSpace(s[0]) then 0
    else
      var k := LeadingSpace(s[1..]);
      assert s[..k + 1] == [s[0]] + s[1..][..k];
      k + 1
  }

  /** Number of trailing whitespace characters. */
  function TrailingSpace(s: string): (n: nat)
    ensures n <= |s|
    ensures forall i :: |s| - n <= i < |s| ==> IsSpace(s[i])
    ensures n < |s| ==> !IsSpace(s[|s| - n - 1])
  {
    if |s| == 0 || !IsSpace(s[|s| - 1]) then 0
    else TrailingSpace(s[..|s| - 1]) + 1
  }

  /**
   * Rust's `str::trim`: the result is the infix of `s` left after removing
   * all leading and trailing whitespace, and it neither starts nor ends with
   * whitespace.
   */
  function Trim(s: string): (r: string)
    ensures |r| <= |s|
    ensures r == [] || (!IsSpace(r[0]) && !IsSpace(r[|r| - 1]))
    ensures exists i :: 0 <= i <= |s| - |r| && r == s[i..i + |r|]
                        && AllSpace(s[..i]) && AllSpace(s[i + |r|..])
  {
    var a := LeadingSpace(s);
    var t := s[a..];
    var b := TrailingSpace(t);
    var r := t[..|t| - b];
    assert r == s[a..a + |r|];
    assert s[a + |r|..] == t[|t| - b..];
    assert AllSpace(t[|t| - b..]);
    assert AllSpace(s[..a]) && AllSpace(s[a + |r|..]);
    assert 0 <= a <= |s| - |r|;
    r
  }

  /** Where a trimmed infix must start, given the first non-whitespace position. */
  lemma TrimStartsAt(s: string, r: string, i: nat, p: nat)
    requires p < |s| && !IsSpace(s[p]) && AllSpace(s[..p])
    requires i + |r| <= |s| && r == s[i..i + |r|] && AllSpace(s[..i]) && AllSpace(s[i + |r|..])
    requires r == [] || !IsSpace(r[0])
    ensures i == p && |r| > 0
  {
  }

  /** Where a trimmed infix must end, given the last non-whitespace position. */
  lemma TrimEndsAt(s: string, r: string, i: nat, q: nat)
    requires 0 < q <= |s| && !IsSpace(s[q - 1]) && AllSpace(s[q..])
    requires i + |r| <= |s| && r == s[i..i + |r|] && AllSpace(s[i + |r|..])
    requires |r| > 0 && !IsSpace(r[|r| - 1])
    ensures i + |r| == q
  {
  }

  /** Trimming keeps exactly the part between the first and last non-whitespace characters. */
  lemma TrimBetween(s: string, p: nat, q: nat)
    requires p < q <= |s|
    requires AllSpace(s[..p]) && !IsSpace(s[p])
    requires AllSpace(s[q..]) && !IsSpace(s[q - 1])
    ensures Trim(s) == s[p..q]
  {
    TrimmedInfix(s, Trim(s), p, q);
  }

  /** An infix with the properties `Trim` promises is the part between `p` and `q`. */
  lemma TrimmedInfix(s: string, r: string, p: nat, q: nat)
    requires p < q <= |s|
    requires AllSpace(s[..p]) && !IsSpace(s[p])
    requires AllSpace(s[q..]) && !IsSpace(s[q - 1])
    requires r == [] || (!IsSpace(r[0]) && !IsSpace(r[|r| - 1]))
    requires exists i :: 0 <= i <= |s| - |r| && r == s[i..i + |r|]
                         && AllSpace(s[..i]) && AllSpace(s[i + |r|..])
    ensures r == s[p..q]
  {
    var i :| 0 <= i <= |s| - |r| && r == s[i..i + |r|] && AllSpace(s[..i]) && AllSpace(s[i + |r|..]);
    TrimStartsAt(s, r, i, p);
    TrimEndsAt(s, r, i, q);
  }

  /** Trimming a padded word that starts and ends with non-whitespace gives back the word. */
  lemma TrimPadded(a: string, x: string, b: string)
    requires AllSpace(a) && AllSpace(b)
    requires |x| > 0 && !IsSpace(x[0]) && !IsSpace(x[|x| - 1])
    ensures Trim(a + x + b) == x
  {
    var s := a + x + b;
    assert s[..|a|] == a && s[|a|] == x[0];
    assert s[|a| + |x|..] == b && s[|a| + |x| - 1] == x[|x| - 1];
    TrimBetween(s, |a|, |a| + |x|);
    assert s[|a|..|a| + |x|] == x;
  }
}
