/** The part of PostgreSQL's arbitrary-precision numeric type the size
    functions use, on finite values: the value coef / 10^scale, where scale
    is the display scale (digits after the decimal point). */
module Numeric {
  import opened Wrappers
  import opened CInt
  import opened Chars

  datatype Decimal = Decimal(coef: int, scale: nat)

  /** The value truncated toward zero to an integer. */
  function Trunc(d: Decimal): int
  {
    Div(d.coef, Pow10(d.scale))
  }

  /** `numeric_is_less(numeric_absolute(d), limit)`. */
  predicate AbsLess(d: Decimal, limit: nat)
  {
    Abs(d.coef) < limit * Pow10(d.scale)
  }

  /** |d| < limit holds exactly when |Trunc(d)| < limit. */
  lemma AbsLessTrunc(d: Decimal, limit: nat)
    ensures AbsLess(d, limit) <==> Abs(Trunc(d)) < limit
  {
    DivMagnitude(d.coef, Pow10(d.scale));
    DivLessIff(Abs(d.coef), Pow10(d.scale), limit);
  }

  /** `numeric_truncated_divide(d, divisor)`: `numeric_div_trunc`, the
      quotient truncated toward zero, an integer of display scale 0. It is
      the truncating integer division of the integer part of d. */
  function TruncatedDivide(d: Decimal, divisor: nat): (r: Decimal)
    requires divisor > 0
    ensures r.scale == 0
    ensures r.coef == Div(Trunc(d), divisor)
  {
    DivDiv(d.coef, Pow10(d.scale), divisor);
    Decimal(Div(d.coef, Pow10(d.scale) * divisor), 0)
  }

  /** `numeric_half_rounded(d)`: add one when d >= 0, subtract one
      otherwise, then `numeric_div_trunc` by two. The result is d / 2
      rounded to the nearest integer with halves away from zero; on an
      integer it agrees with the `half_rounded` macro. */
  function HalfRoundedNumeric(d: Decimal): (r: Decimal)
    ensures r.scale == 0
    ensures d.coef >= 0 ==> d.coef - Pow10(d.scale) < 2 * r.coef * Pow10(d.scale) <= d.coef + Pow10(d.scale)
    ensures d.coef < 0 ==> d.coef - Pow10(d.scale) <= 2 * r.coef * Pow10(d.scale) < d.coef + Pow10(d.scale)
    ensures d.scale == 0 ==> r.coef == HalfRounded(d.coef)
  {
    var one := Pow10(d.scale);
    var n := if d.coef >= 0 then d.coef + one else d.coef - one;
    var q := Div(n, 2 * one);
    HalfDivBounds(d.coef, one, q);
    Decimal(q, 0)
  }

  /** The bounds of adding or subtracting one unit and dividing by two
      units with truncation. */
  lemma HalfDivBounds(c: int, one: int, q: int)
    requires one >= 1 && q == Div(if c >= 0 then c + one else c - one, 2 * one)
    ensures c >= 0 ==> c - one < 2 * q * one <= c + one
    ensures c < 0 ==> c - one <= 2 * q * one < c + one
    ensures one == 1 ==> q == HalfRounded(c)
  {
    var n := if c >= 0 then c + one else c - one;
    assert -(2 * one) < n - q * (2 * one) < 2 * one;
    assert q * (2 * one) == 2 * q * one;
    if c >= 0 {
      assert 0 <= n - 2 * q * one;
    } else {
      assert n - 2 * q * one <= 0;
    }
  }

  /** `numeric_out` on a finite value: an optional minus sign, the integer
      digits, and when the display scale is positive a point followed by
      exactly scale digits. numeric_in reads the text back as the same
      value, display scale included. */
  function DecimalText(d: Decimal): (t: string)
    ensures NumericIn(t) == Some(d)
  {
    PositionalRead(d);
    (if d.coef < 0 then "-" else "") + PositionalText(Abs(d.coef), d.scale)
  }

  /** The sign and the positional digits of d are a literal of value d. */
  lemma PositionalRead(d: Decimal)
    ensures NumericIn((if d.coef < 0 then "-" else "") + PositionalText(Abs(d.coef), d.scale)) == Some(d)
  {
    var sign: string := if d.coef < 0 then "-" else "";
    var l := PositionalLiteral(sign, Abs(d.coef), d.scale);
    PositionalValue(d, sign, l);
    NumericInLiteral(l);
  }

  lemma PositionalValue(d: Decimal, sign: string, l: Literal)
    requires sign == (if d.coef < 0 then "-" else "") && l == PositionalLiteral(sign, Abs(d.coef), d.scale)
    ensures LiteralValue(l) == d
  {
    assert l.exponent == None && |l.fraction| == d.scale;
    assert Pow10(0) == 1;
  }

  /** The digits of m / 10^scale in positional notation. */
  function PositionalText(m: nat, scale: nat): string
  {
    var p := Pow10(scale);
    DivMod(m, p);
    var whole := m / p;
    var frac := m % p;
    NatText(whole) + (if scale == 0 then "" else "." + PadText(frac, scale))
  }

  /** An integer of scale 0 is printed as `%lld` prints it. */
  lemma DecimalTextOfInteger(n: int)
    ensures DecimalText(Decimal(n, 0)) == IntText(n)
  {
    assert Abs(n) / 1 == Abs(n);
  }

  /** The value of a sign, a digit string, a count of fractional digits and
      a decimal exponent, with the display scale numeric_in gives it:
      max(0, fractional digits - exponent). */
  function MakeDecimal(neg: bool, digits: nat, fracDigits: nat, exponent: int): Decimal
  {
    var c := if neg then -(digits as int) else digits;
    if exponent >= fracDigits then Decimal(c * Pow10(exponent - fracDigits), 0)
    else Decimal(c, fracDigits - exponent)
  }

  /** The exponent after an `e`: an optional sign and at least one digit,
      running to the end of the text. */
  function ExponentValue(t: string, i: nat): (r: Option<int>)
    requires i <= |t|
    ensures r.Some? ==> i < |t|
  {
    var neg := i < |t| && t[i] == '-';
    var p := if i < |t| && (t[i] == '+' || t[i] == '-') then i + 1 else i;
    var q := SkipDigits(t, p);
    if q == p || q != |t| then None
    else
      var v: int := DigitsValue(t[p..q]);
      Some(if neg then -v else v)
  }

  /** `numeric_in` on the texts the size parser hands it, which start with
      a sign, a digit or a point and never end in white space: an optional
      sign, digits with at most one decimal point (at least one digit in
      all), and an optional exponent made of `e` or `E`, an optional sign
      and digits. Anything else, white space inside the exponent included,
      is a syntax error. What it accepts is always the text of a literal,
      and the value is that literal's. */
  function NumericIn(t: string): (r: Option<Decimal>)
    ensures r.Some? ==> var l := LiteralOf(t);
      ValidLiteral(l) && LiteralText(l) == t && LiteralValue(l) == r.value
  {
    var p := if 0 < |t| && (t[0] == '+' || t[0] == '-') then 1 else 0;
    var q := SkipDigits(t, p);
    var f := if q < |t| && t[q] == '.' then q + 1 else q;
    var g := SkipDigits(t, f);
    NumericInScanned(t, p, q, f, g)
  }

  /** numeric_in once its scan has found the end p of the sign, q of the
      integer digits, f of the point and g of the fractional digits. */
  function NumericInScanned(t: string, p: nat, q: nat, f: nat, g: nat): (r: Option<Decimal>)
    requires p == if 0 < |t| && (t[0] == '+' || t[0] == '-') then 1 else 0
    requires q == SkipDigits(t, p) && f == (if q < |t| && t[q] == '.' then q + 1 else q)
    requires g == SkipDigits(t, f)
    ensures r.Some? ==> var l := LiteralOf(t);
      ValidLiteral(l) && LiteralText(l) == t && LiteralValue(l) == r.value
  {
    if q == p && g == f then None
    else
      match ExponentAt(t, g)
      case None => None
      case Some(e) =>
        ScannedRuns(t, p, q, f, g);
        LiteralOfParts(t, p, q, f, g, e);
        Some(MakeDecimal(p == 1 && t[0] == '-', JoinedValue(t[p..q], t[f..g]), g - f, e))
  }

  /** The integer and fractional digits numeric_in's scan passes over. */
  lemma ScannedRuns(t: string, p: nat, q: nat, f: nat, g: nat)
    requires p <= |t| && q == SkipDigits(t, p) && f == (if q < |t| && t[q] == '.' then q + 1 else q)
    requires g == SkipDigits(t, f)
    ensures p <= q <= f <= g <= |t| && AllDigits(t[p..q]) && AllDigits(t[f..g])
  {
    SkippedDigits(t, p);
    SkippedDigits(t, f);
  }

  /** The parts numeric_in finds in t: the sign, the integer digits, the
      point, the fractional digits and the exponent. */
  function LiteralOf(t: string): Literal
  {
    var p := if 0 < |t| && (t[0] == '+' || t[0] == '-') then 1 else 0;
    var q := SkipDigits(t, p);
    var f := if q < |t| && t[q] == '.' then q + 1 else q;
    var g := SkipDigits(t, f);
    Literal(t[..p], t[p..q], f > q, t[f..g], ExponentPart(t, g))
  }

  /** The exponent numeric_in finds from g: none at the end of the text,
      otherwise the marker, an optional sign and the rest of the text. */
  function ExponentPart(t: string, g: nat): Option<Exponent>
    requires g <= |t|
  {
    if g == |t| then None
    else
      var i := g + 1;
      var p := if i < |t| && (t[i] == '+' || t[i] == '-') then i + 1 else i;
      Some(Exponent(t[g], t[i..p], t[p..]))
  }

  /** An exponent numeric_in accepts is a valid exponent part that spells
      the rest of the text and has the value read. */
  lemma ExponentPartOf(t: string, g: nat, e: int)
    requires g <= |t| && ExponentAt(t, g) == Some(e)
    ensures var x := ExponentPart(t, g);
      && (x.Some? ==> ValidExponent(x.value))
      && t[g..] == ExponentText(x)
      && ExponentOf(x) == e
  {
    if g < |t| {
      var i := g + 1;
      var p := if i < |t| && (t[i] == '+' || t[i] == '-') then i + 1 else i;
      var q := SkipDigits(t, p);
      assert q > p && q == |t|;
      SkippedDigits(t, p);
      assert t[p..q] == t[p..];
      if p == i + 1 {
        assert t[i..p] == [t[i]];
      } else {
        assert t[i..p] == "";
      }
      assert (t[i..p] == "-") == (i < |t| && t[i] == '-');
      assert t[g..] == [t[g]] + t[i..p] + t[p..];
    }
  }

  /** The literal LiteralOf builds from the positions numeric_in reaches is
      valid, spells t and has the value numeric_in reads. */
  lemma LiteralOfParts(t: string, p: nat, q: nat, f: nat, g: nat, e: int)
    requires p == if 0 < |t| && (t[0] == '+' || t[0] == '-') then 1 else 0
    requires q == SkipDigits(t, p) && f == (if q < |t| && t[q] == '.' then q + 1 else q)
    requires g == SkipDigits(t, f) && !(q == p && g == f)
    requires ExponentAt(t, g) == Some(e)
    requires p <= q <= f <= g <= |t| && AllDigits(t[p..q]) && AllDigits(t[f..g])
    ensures var l := LiteralOf(t);
      && ValidLiteral(l) && LiteralText(l) == t
      && LiteralValue(l) == MakeDecimal(p == 1 && t[0] == '-', JoinedValue(t[p..q], t[f..g]), g - f, e)
  {
    var x := ExponentPart(t, g);
    ExponentPartOf(t, g, e);
    var sign := t[..p];
    SignOfScan(t, p);
    PointOfScan(t, q, f);
    LiteralSpelling(t, p, q, f, g, x);
    var l := Literal(sign, t[p..q], f > q, t[f..g], x);
    assert LiteralOf(t) == l;
    assert ValidLiteral(l);
    assert LiteralValue(l) == MakeDecimal(sign == "-", JoinedValue(t[p..q], t[f..g]), g - f, e);
  }

  /** The sign numeric_in's scan takes. */
  lemma SignOfScan(t: string, p: nat)
    requires p == if 0 < |t| && (t[0] == '+' || t[0] == '-') then 1 else 0
    ensures IsSign(t[..p]) && (t[..p] == "-") == (p == 1 && t[0] == '-')
  {
    if p == 1 {
      assert t[..p] == [t[0]];
    }
  }

  /** The point numeric_in's scan takes. */
  lemma PointOfScan(t: string, q: nat, f: nat)
    requires q <= |t| && f == (if q < |t| && t[q] == '.' then q + 1 else q)
    ensures f > q ==> t[q..f] == "."
  {
  }

  /** The parts at positions p <= q <= f <= g spell t again. */
  lemma LiteralSpelling(t: string, p: nat, q: nat, f: nat, g: nat, x: Option<Exponent>)
    requires p <= q <= f <= g <= |t| && f <= q + 1
    requires f > q ==> t[q..f] == "."
    requires t[g..] == ExponentText(x)
    ensures LiteralText(Literal(t[..p], t[p..q], f > q, t[f..g], x)) == t
  {
    var pt: string := if f > q then "." else "";
    assert pt == t[q..f];
    assert t == t[..p] + t[p..q] + t[q..f] + t[f..g] + t[g..];
  }

  /** The exponent from position g: none at the end of the text, otherwise
      an `e` or `E` followed by an integer running to the end. */
  function ExponentAt(t: string, g: nat): Option<int>
    requires g <= |t|
  {
    if g == |t| then Some(0)
    else if t[g] == 'e' || t[g] == 'E' then ExponentValue(t, g + 1)
    else None
  }

  /** The value of the integer digits and the fractional digits together. */
  function JoinedValue(a: string, b: string): nat
    requires AllDigits(a) && AllDigits(b)
  {
    DigitsValueAppend(a, b);
    DigitsValue(a + b)
  }

  /** The value MakeDecimal gives is digits * 10^(exponent - fracDigits),
      held with the display scale max(0, fracDigits - exponent). */
  lemma MakeDecimalValue(neg: bool, digits: nat, fracDigits: nat, exponent: int)
    ensures var d := MakeDecimal(neg, digits, fracDigits, exponent);
      var c := if neg then -(digits as int) else digits;
      && d.scale == (if exponent >= fracDigits then 0 else fracDigits - exponent)
      && exponent + d.scale >= 0
      && d.coef * Pow10(fracDigits) == c * Pow10(exponent + d.scale)
  {
    var c := if neg then -(digits as int) else digits;
    if exponent >= fracDigits {
      Pow10Add(exponent - fracDigits, fracDigits);
      assert c * Pow10(exponent - fracDigits) * Pow10(fracDigits) == c * (Pow10(exponent - fracDigits) * Pow10(fracDigits));
    }
  }

  /** The exponent part of a literal: `e` or `E`, an optional sign, digits. */
  datatype Exponent = Exponent(marker: char, sign: string, digits: string)

  /** A decimal literal as the size parser delimits it: an optional sign,
      integer digits, an optional point followed by fractional digits, and
      an optional exponent. */
  datatype Literal = Literal(sign: string, whole: string, point: bool, fraction: string, exponent: Option<Exponent>)

  predicate IsSign(t: string)
  {
    t == "" || t == "+" || t == "-"
  }

  /** At least one digit in all, fractional digits only after a point, and
      an exponent with at least one digit. */
  predicate ValidLiteral(l: Literal)
  {
    && IsSign(l.sign) && AllDigits(l.whole) && AllDigits(l.fraction)
    && (l.point || l.fraction == "") && |l.whole| + |l.fraction| > 0
    && (l.exponent.Some? ==> ValidExponent(l.exponent.value))
  }

  predicate ValidExponent(x: Exponent)
  {
    (x.marker == 'e' || x.marker == 'E') && IsSign(x.sign) && AllDigits(x.digits) && x.digits != ""
  }

  function ExponentText(x: Option<Exponent>): string
  {
    match x
    case None => ""
    case Some(x) => [x.marker] + x.sign + x.digits
  }

  function LiteralText(l: Literal): string
  {
    l.sign + l.whole + (if l.point then "." else "") + l.fraction + ExponentText(l.exponent)
  }

  function ExponentOf(x: Option<Exponent>): int
    requires x.Some? ==> AllDigits(x.value.digits)
  {
    match x
    case None => 0
    case Some(x) => if x.sign == "-" then -(DigitsValue(x.digits) as int) else DigitsValue(x.digits)
  }

  /** The value a literal denotes: all its digits, scaled down by the
      fractional ones and up by the exponent. */
  function LiteralValue(l: Literal): Decimal
    requires ValidLiteral(l)
  {
    MakeDecimal(l.sign == "-", JoinedValue(l.whole, l.fraction), |l.fraction|, ExponentOf(l.exponent))
  }

  /** The exponent digits after `e`: an optional sign, then digits to the
      end of the text. */
  lemma ExponentValueAt(t: string, i: nat, sign: string, digits: string)
    requires IsSign(sign) && AllDigits(digits) && digits != []
    requires i + |sign| + |digits| == |t|
    requires t[i..i + |sign|] == sign && t[i + |sign|..] == digits
    ensures ExponentValue(t, i) == Some(if sign == "-" then -(DigitsValue(digits) as int) else DigitsValue(digits))
  {
    var p := i + |sign|;
    if sign == "" {
      assert t[i] == digits[0];
    } else {
      assert t[i] == sign[0];
    }
    forall k | p <= k < |t|
      ensures IsDigit(t[k])
    {
      assert t[k] == digits[k - p];
    }
    SkipDigitsAt(t, p, |t|);
    assert t[p..|t|] == digits;
  }

  /** A run of digits that ends at j or at the end of the text. */
  lemma DigitRun(t: string, i: nat, j: nat, d: string)
    requires i <= j <= |t| && t[i..j] == d && AllDigits(d)
    requires j == |t| || !IsDigit(t[j])
    ensures SkipDigits(t, i) == j
  {
    forall k | i <= k < j
      ensures IsDigit(t[k])
    {
      assert t[k] == d[k - i];
    }
    SkipDigitsAt(t, i, j);
  }

  /** numeric_in on a text whose sign, integer digits, point, fractional
      digits and exponent sit at known positions. */
  lemma NumericInAt(t: string, sign: string, whole: string, point: bool, fraction: string, exponent: int,
                    q: nat, f: nat, g: nat)
    requires IsSign(sign) && AllDigits(whole) && AllDigits(fraction) && |whole| + |fraction| > 0
    requires q == |sign| + |whole| && f == q + (if point then 1 else 0) && g == f + |fraction| <= |t|
    requires t[..|sign|] == sign && t[|sign|..q] == whole && t[f..g] == fraction
    requires q == |t| || !IsDigit(t[q])
    requires point <==> q < |t| && t[q] == '.'
    requires ExponentAt(t, g) == Some(exponent)
    ensures NumericIn(t) == Some(MakeDecimal(sign == "-", JoinedValue(whole, fraction), |fraction|, exponent))
  {
    assert g == |t| || !IsDigit(t[g]);
    ScanPositions(t, sign, whole, point, fraction, q, f, g);
    NumericInFrom(t, |sign|, q, f, g, exponent);
  }

  /** Where numeric_in's scan stops on a text laid out as in NumericInAt. */
  lemma ScanPositions(t: string, sign: string, whole: string, point: bool, fraction: string,
                      q: nat, f: nat, g: nat)
    requires IsSign(sign) && AllDigits(whole) && AllDigits(fraction) && |whole| + |fraction| > 0
    requires q == |sign| + |whole| && f == q + (if point then 1 else 0) && g == f + |fraction| <= |t|
    requires t[..|sign|] == sign && t[|sign|..q] == whole && t[f..g] == fraction
    requires q == |t| || !IsDigit(t[q])
    requires point <==> q < |t| && t[q] == '.'
    requires g == |t| || !IsDigit(t[g])
    ensures |sign| == if 0 < |t| && (t[0] == '+' || t[0] == '-') then 1 else 0
    ensures (|sign| == 1 && t[0] == '-') == (sign == "-")
    ensures q == SkipDigits(t, |sign|) && f == (if q < |t| && t[q] == '.' then q + 1 else q)
    ensures g == SkipDigits(t, f) && !(q == |sign| && g == f)
    ensures t[|sign|..q] == whole && t[f..g] == fraction
  {
    var ps := |sign|;
    assert |t| > 0 && (t[0] == '+' || t[0] == '-' <==> sign != "") && (t[0] == '-' <==> sign == "-") by {
      if sign != "" {
        assert t[0] == sign[0];
      } else if whole != [] {
        assert t[0] == t[ps..q][0];
      } else {
        assert point && t[0] == '.';
      }
    }
    DigitRun(t, ps, q, whole);
    DigitRun(t, f, g, fraction);
  }

  /** numeric_in once the scan positions are known: the sign ends at p,
      the integer digits at q, the point at f, the fractional digits at g,
      and an exponent e follows. */
  lemma NumericInFrom(t: string, p: nat, q: nat, f: nat, g: nat, e: int)
    requires p == if 0 < |t| && (t[0] == '+' || t[0] == '-') then 1 else 0
    requires q == SkipDigits(t, p) && f == (if q < |t| && t[q] == '.' then q + 1 else q)
    requires g == SkipDigits(t, f) && !(q == p && g == f)
    requires ExponentAt(t, g) == Some(e)
    ensures NumericIn(t) == Some(MakeDecimal(p == 1 && t[0] == '-', JoinedValue(t[p..q], t[f..g]), g - f, e))
  {
    assert NumericIn(t) == NumericInScanned(t, p, q, f, g);
  }

  /** Where the parts of a literal sit in its text. */
  lemma LiteralLayout(l: Literal)
    requires ValidLiteral(l)
    ensures var t := LiteralText(l);
      var q := |l.sign| + |l.whole|;
      var f := q + (if l.point then 1 else 0);
      var g := f + |l.fraction|;
      && g <= |t|
      && t[..|l.sign|] == l.sign && t[|l.sign|..q] == l.whole && t[f..g] == l.fraction
      && (q == |t| || !IsDigit(t[q]))
      && (l.point <==> q < |t| && t[q] == '.')
      && t[g..] == ExponentText(l.exponent)
  {
    var t := LiteralText(l);
    var pt: string := if l.point then "." else "";
    var e := ExponentText(l.exponent);
    var q := |l.sign| + |l.whole|;
    var g := q + |pt| + |l.fraction|;
    assert t[0..|t|] == t;
    SlicesAt(t, 0, |t|, l.sign, l.whole, pt, l.fraction, e);
    assert t[..|l.sign|] == t[0..|l.sign|];
    assert g < |t| ==> t[g] == t[g..][0] == e[0];
    if l.point {
      assert t[q] == t[q..q + 1][0];
    } else if q < |t| {
      assert t[q] == e[0];
    }
  }

  /** numeric_in accepts every literal and reads its value. */
  lemma NumericInLiteral(l: Literal)
    requires ValidLiteral(l)
    ensures NumericIn(LiteralText(l)) == Some(LiteralValue(l))
  {
    var t := LiteralText(l);
    var q := |l.sign| + |l.whole|;
    var f := q + (if l.point then 1 else 0);
    var g := f + |l.fraction|;
    LiteralLayout(l);
    ExponentAtText(t, g, l.exponent);
    NumericInAt(t, l.sign, l.whole, l.point, l.fraction, ExponentOf(l.exponent), q, f, g);
  }

  /** An exponent part at the end of a text is read back. */
  lemma ExponentAtText(t: string, g: nat, x: Option<Exponent>)
    requires g <= |t| && t[g..] == ExponentText(x)
    requires x.Some? ==> ValidExponent(x.value)
    ensures ExponentAt(t, g) == Some(ExponentOf(x))
  {
    match x {
      case None =>
      case Some(x) =>
        assert t[g] == x.marker;
        assert t[g + 1..g + 1 + |x.sign|] == x.sign;
        assert t[g + 1 + |x.sign|..] == x.digits;
        ExponentValueAt(t, g + 1, x.sign, x.digits);
    }
  }

  /** numeric_out as a literal: its sign, its integer digits and, when the
      display scale is positive, its fractional digits. */
  function DecimalLiteral(d: Decimal): (l: Literal)
    ensures ValidLiteral(l)
    ensures LiteralText(l) == DecimalText(d)
    ensures LiteralValue(l) == d
  {
    var sign: string := if d.coef < 0 then "-" else "";
    var l := PositionalLiteral(sign, Abs(d.coef), d.scale);
    assert LiteralText(l) == sign + PositionalText(Abs(d.coef), d.scale);
    l
  }

  /** The literal that PositionalText prints, after the given sign. */
  function PositionalLiteral(sign: string, m: nat, scale: nat): (l: Literal)
    requires IsSign(sign)
    ensures ValidLiteral(l)
    ensures LiteralText(l) == sign + PositionalText(m, scale)
    ensures JoinedValue(l.whole, l.fraction) == m && |l.fraction| == scale
    ensures l.sign == sign && l.exponent == None
  {
    DivMod(m, Pow10(scale));
    var q := m / Pow10(scale);
    PositionalDigits(m, scale, q);
    Literal(sign, NatText(q), scale > 0, FractionDigits(m, scale), None)
  }

  /** The digits PositionalText prints after the point. */
  function FractionDigits(m: nat, scale: nat): (s: string)
    ensures |s| == scale && AllDigits(s)
  {
    if scale == 0 then "" else PadText(m % Pow10(scale), scale)
  }

  /** The integer digits and the fractional digits together give m back. */
  lemma PositionalDigits(m: nat, scale: nat, q: nat)
    requires q == m / Pow10(scale)
    ensures JoinedValue(NatText(q), FractionDigits(m, scale)) == m
  {
    var p := Pow10(scale);
    DivMod(m, p);
    if scale == 0 {
      JoinDigits(NatText(q), "", m, q, 1, 0);
    } else {
      JoinDigits(NatText(q), FractionDigits(m, scale), m, q, p, m % p);
    }
  }

  /** Digits worth q followed by |b| digits worth r are worth q * 10^|b| + r. */
  lemma JoinDigits(a: string, b: string, m: nat, q: nat, p: nat, r: nat)
    requires AllDigits(a) && AllDigits(b) && p == Pow10(|b|)
    requires DigitsValue(a) == q && DigitsValue(b) == r && m == q * p + r
    ensures JoinedValue(a, b) == m
  {
    DigitsValueAppend(a, b);
  }

  /** `numeric_int8`'s rounding (round_var to scale 0): the nearest integer,
      halves away from zero. */
  function RoundToInteger(d: Decimal): (n: int)
    ensures 2 * Abs(d.coef) - Pow10(d.scale) < 2 * Abs(n) * Pow10(d.scale) <= 2 * Abs(d.coef) + Pow10(d.scale)
    ensures n > 0 ==> d.coef > 0
    ensures n < 0 ==> d.coef < 0
    ensures d.scale == 0 ==> n == d.coef
  {
    var p := Pow10(d.scale);
    var m := (2 * Abs(d.coef) + p) / (2 * p);
    var n := if d.coef < 0 then -m else m;
    RoundedSigned(d.coef, p, m, n);
    n
  }

  /** Rounding the magnitude and giving it back its sign. */
  lemma RoundedSigned(c: int, p: nat, m: int, n: int)
    requires p >= 1 && m == (2 * Abs(c) + p) / (2 * p) && n == (if c < 0 then -m else m)
    ensures 2 * Abs(c) - p < 2 * Abs(n) * p <= 2 * Abs(c) + p
    ensures n > 0 ==> c > 0
    ensures n < 0 ==> c < 0
    ensures p == 1 ==> n == c
  {
    RoundedQuotient(Abs(c), p);
    assert Abs(n) == m;
  }

  /** (2a + p) / 2p is a / p rounded to the nearest integer, halves up. */
  lemma RoundedQuotient(a: nat, p: nat)
    requires p > 0
    ensures 0 <= (2 * a + p) / (2 * p)
    ensures 2 * a - p < 2 * ((2 * a + p) / (2 * p)) * p <= 2 * a + p
    ensures p == 1 ==> (2 * a + p) / (2 * p) == a
  {
    var b := 2 * a + p;
    var m := b / (2 * p);
    var r := b % (2 * p);
    assert b == m * (2 * p) + r && 0 <= r < 2 * p;
    assert m * (2 * p) == 2 * m * p;
    if p == 1 {
      DivUnique(b, 2, a, 1);
    }
  }
}
