/** Character classes of the C locale, ASCII case folding, and decimal
    digit strings: the text side of `%lld` formatting and of reading
    digits back. */
module Chars {
  import opened CInt

  /** `isspace` in the C locale: space, \t, \n, \v, \f and \r. */
  predicate IsSpace(c: char)
  {
    c == ' ' || '\t' <= c <= '\r'
  }

  /** `isdigit`. */
  predicate IsDigit(c: char)
  {
    '0' <= c <= '9'
  }

  predicate AllSpaces(s: string)
  {
    forall i :: 0 <= i < |s| ==> IsSpace(s[i])
  }

  predicate AllDigits(s: string)
  {
    forall i :: 0 <= i < |s| ==> IsDigit(s[i])
  }

  function DigitValue(c: char): (d: nat)
    requires IsDigit(c)
    ensures d < 10
  {
    c as int - '0' as int
  }

  function DigitChar(d: nat): (c: char)
    requires d < 10
    ensures IsDigit(c) && DigitValue(c) == d
  {
    ('0' as int + d) as char
  }

  /** The case folding of `pg_strcasecmp` for 7-bit characters. */
  function ToLower(c: char): char
  {
    if 'A' <= c <= 'Z' then (c as int + 32) as char else c
  }

  /** `pg_strcasecmp(a, b) == 0`: the same length and the same characters
      up to ASCII case. */
  predicate EqualsIgnoreCase(a: string, b: string)
  {
    |a| == |b| && forall i :: 0 <= i < |a| ==> ToLower(a[i]) == ToLower(b[i])
  }

  /** The first index at or after i that does not hold white space; the
      `while (isspace(*p)) p++` loops. */
  function SkipSpaces(s: string, i: nat): (j: nat)
    requires i <= |s|
    ensures i <= j <= |s|
    ensures forall k :: i <= k < j ==> IsSpace(s[k])
    ensures j == |s| || !IsSpace(s[j])
    decreases |s| - i
  {
    if i < |s| && IsSpace(s[i]) then SkipSpaces(s, i + 1) else i
  }

  /** The first index at or after i that does not hold a digit. */
  function SkipDigits(s: string, i: nat): (j: nat)
    requires i <= |s|
    ensures i <= j <= |s|
    ensures forall k :: i <= k < j ==> IsDigit(s[k])
    ensures j == |s| || !IsDigit(s[j])
    decreases |s| - i
  {
    if i < |s| && IsDigit(s[i]) then SkipDigits(s, i + 1) else i
  }

  lemma SkipSpacesAt(s: string, i: nat, j: nat)
    requires i <= j <= |s|
    requires forall k :: i <= k < j ==> IsSpace(s[k])
    requires j == |s| || !IsSpace(s[j])
    ensures SkipSpaces(s, i) == j
  {
  }

  lemma SkipDigitsAt(s: string, i: nat, j: nat)
    requires i <= j <= |s|
    requires forall k :: i <= k < j ==> IsDigit(s[k])
    requires j == |s| || !IsDigit(s[j])
    ensures SkipDigits(s, i) == j
  {
  }

  /** The digits SkipDigits steps over. */
  lemma SkippedDigits(s: string, i: nat)
    requires i <= |s|
    ensures AllDigits(s[i..SkipDigits(s, i)])
  {
    var j := SkipDigits(s, i);
    forall k | 0 <= k < j - i
      ensures IsDigit(s[i..j][k])
    {
      assert s[i..j][k] == s[i + k];
    }
  }

  /** The value of a string of decimal digits, most significant first. */
  function DigitsValue(s: string): nat
    requires AllDigits(s)
  {
    if s == [] then 0 else DigitsValue(s[..|s| - 1]) * 10 + DigitValue(s[|s| - 1])
  }

  /** The value of a concatenation: the left part is shifted by as many
      decimal places as the right part has digits. */
  lemma {:induction false} DigitsValueAppend(a: string, b: string)
    requires AllDigits(a) && AllDigits(b)
    ensures AllDigits(a + b)
    ensures DigitsValue(a + b) == DigitsValue(a) * Pow10(|b|) + DigitsValue(b)
  {
    if b != [] {
      var b' := b[..|b| - 1];
      assert (a + b)[..|a + b| - 1] == a + b';
      assert (a + b)[|a + b| - 1] == b[|b| - 1];
      DigitsValueAppend(a, b');
      var last := DigitValue(b[|b| - 1]);
      assert DigitsValue(a + b) == DigitsValue(a + b') * 10 + last;
      assert DigitsValue(b) == DigitsValue(b') * 10 + last;
      assert Pow10(|b|) == Pow10(|b'|) * 10;
      ShiftDigit(DigitsValue(a), Pow10(|b'|), DigitsValue(b'), last);
    } else {
      assert a + b == a;
    }
  }

  lemma ShiftDigit(x: int, p: int, y: int, d: int)
    ensures (x * p + y) * 10 + d == x * (p * 10) + (y * 10 + d)
  {
  }

  /** Decimal digits of n without leading zeros ("0" for zero), as `%lld`
      prints a non-negative value; reading them back gives n. */
  function NatText(n: nat): (s: string)
    ensures |s| > 0 && AllDigits(s)
    ensures DigitsValue(s) == n
    ensures s[0] == '0' ==> n == 0
  {
    if n < 10 then [DigitChar(n)] else NatText(n / 10) + [DigitChar(n % 10)]
  }

  /** `%lld`: a minus sign for negative values, then the digits. */
  function IntText(n: int): string
  {
    if n < 0 then "-" + NatText(-n) else NatText(n)
  }

  /** The last w decimal digits of v, with leading zeros: the fractional
      digits `numeric_out` prints for a display scale of w. */
  function PadText(v: nat, w: nat): (s: string)
    ensures |s| == w && AllDigits(s)
    ensures DigitsValue(s) == v % Pow10(w)
  {
    if w == 0 then ""
    else
      var s := PadText(v / 10, w - 1) + [DigitChar(v % 10)];
      assert s[..|s| - 1] == PadText(v / 10, w - 1);
      PadStep(v, Pow10(w - 1));
      s
  }

  /** The arithmetic step behind PadText: peeling off the last digit. */
  lemma PadStep(v: nat, m: nat)
    requires m > 0
    ensures ((v / 10) % m) * 10 + v % 10 == v % (10 * m)
  {
    var q := (v / 10) / m;
    var t := (v / 10) % m;
    assert v / 10 == q * m + t;
    assert v == q * (10 * m) + (t * 10 + v % 10) by {
      assert v == (v / 10) * 10 + v % 10;
      assert (q * m + t) * 10 == q * (10 * m) + t * 10;
    }
    MulLe(t, m - 1, 10);
    DivUnique(v, 10 * m, q, t * 10 + v % 10);
  }

  /** The five pieces of a text laid out in s from a to e sit at
      consecutive positions. */
  lemma SlicesAt(s: string, a: nat, e: nat, p1: string, p2: string, p3: string, p4: string, p5: string)
    requires a <= e <= |s| && s[a..e] == p1 + p2 + p3 + p4 + p5
    ensures var w := a + |p1|; var q := w + |p2|; var f := q + |p3|; var g := f + |p4|;
      && g + |p5| == e
      && s[a..w] == p1 && s[w..q] == p2 && s[q..f] == p3 && s[f..g] == p4 && s[g..e] == p5
  {
    SplitAt(s, a, e, p1 + p2 + p3 + p4, p5);
    SplitAt(s, a, e - |p5|, p1 + p2 + p3, p4);
    SplitAt(s, a, e - |p5| - |p4|, p1 + p2, p3);
    SplitAt(s, a, a + |p1| + |p2|, p1, p2);
  }

  /** Two pieces laid out in s from a to e. */
  lemma SplitAt(s: string, a: nat, e: nat, x: string, y: string)
    requires a <= e <= |s| && s[a..e] == x + y
    ensures a + |x| + |y| == e && s[a..a + |x|] == x && s[a + |x|..e] == y
  {
    assert s[a..a + |x|] == s[a..e][..|x|] == (x + y)[..|x|];
    assert s[a + |x|..e] == s[a..e][|x|..] == (x + y)[|x|..];
  }
}
