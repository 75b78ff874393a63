/** `pg_size_bytes`: a human-readable size such as " 1.5 GB " read back
    as a number of bytes. */
module SizeBytes {
  import opened Wrappers
  import opened CInt
  import opened Chars
  import opened SizeUnits
  import opened Numeric

  /** The errors `pg_size_bytes` raises. */
  datatype SizeError =
    | InvalidSize(input: string)                 // no digit in the number
    | InvalidUnit(input: string, unit: string)   // the unit is not in the tables
    | InvalidNumeric(number: string)             // numeric_in rejects the number
    | BigintOutOfRange                           // numeric_int8 rejects the result

  /** A value, or the error raised on the way to it. */
  datatype Outcome<+T> = Ok(value: T) | Err(error: SizeError)

  /** Past an optional sign. */
  function SignEnd(s: string, i: nat): (j: nat)
    requires i <= |s|
    ensures i <= j <= i + 1 && j <= |s|
  {
    if i < |s| && (s[i] == '-' || s[i] == '+') then i + 1 else i
  }

  /** Past the digits, an optional point and the digits after it. */
  function MantissaEnd(s: string, i: nat): (j: nat)
    requires i <= |s|
    ensures i <= j <= |s|
  {
    var p := SkipDigits(s, i);
    if p < |s| && s[p] == '.' then SkipDigits(s, p + 1) else p
  }

  /** `have_digits`: the integer part or the fractional part has a digit. */
  predicate HaveDigits(s: string, i: nat)
    requires i <= |s|
  {
    var p := SkipDigits(s, i);
    p > i || (p < |s| && s[p] == '.' && SkipDigits(s, p + 1) > p + 1)
  }

  /** strtol finds an integer from i: a digit after the white space and the
      optional sign it skips. */
  predicate IntegerFollows(s: string, i: nat)
    requires i <= |s|
  {
    var k := SignEnd(s, SkipSpaces(s, i));
    k < |s| && IsDigit(s[k])
  }

  /** The end position `strtol(s + i, &cp, 10)` sets: past white space, a
      sign and at least one digit, or i itself when no digit follows. */
  function StrtolEnd(s: string, i: nat): (j: nat)
    requires i <= |s|
    ensures j == i || i < j <= |s|
    ensures j > i <==> IntegerFollows(s, i)
    ensures j > i ==> var k := SignEnd(s, SkipSpaces(s, i));
      k < j && (forall x :: k <= x < j ==> IsDigit(s[x])) && (j == |s| || !IsDigit(s[j]))
  {
    var k := SignEnd(s, SkipSpaces(s, i));
    var m := SkipDigits(s, k);
    if m > k then m else i
  }

  /** Past an exponent, which is taken only when an integer follows the
      `e` or `E`. */
  function ExponentEnd(s: string, j: nat): (e: nat)
    requires j <= |s|
    ensures j <= e <= |s|
    ensures e > j <==> j < |s| && (s[j] == 'e' || s[j] == 'E') && IntegerFollows(s, j + 1)
    ensures e > j ==> e == StrtolEnd(s, j + 1) && j + 1 < e
  {
    if j < |s| && (s[j] == 'e' || s[j] == 'E') && StrtolEnd(s, j + 1) > j + 1
    then StrtolEnd(s, j + 1) else j
  }

  /** The end of s[lo..hi] once trailing white space is trimmed; s[lo] is
      not white space, so the trimming stops after it. */
  function TrimEnd(s: string, lo: nat, hi: nat): (t: nat)
    requires lo < hi <= |s| && !IsSpace(s[lo])
    ensures lo < t <= hi && !IsSpace(s[t - 1])
    ensures forall k :: t <= k < hi ==> IsSpace(s[k])
    decreases hi
  {
    if IsSpace(s[hi - 1]) then TrimEnd(s, lo, hi - 1) else hi
  }

  /** The first unit at or after i whose name matches u up to case. */
  function FindUnit(u: string, i: nat): (r: Option<nat>)
    requires i <= |Units|
    ensures r.Some? ==> i <= r.value < |Units| && EqualsIgnoreCase(u, Units[r.value].name)
    ensures r.None? ==> forall j :: i <= j < |Units| ==> !EqualsIgnoreCase(u, Units[j].name)
    decreases |Units| - i
  {
    if i == |Units| then None
    else if EqualsIgnoreCase(u, Units[i].name) then Some(i)
    else FindUnit(u, i + 1)
  }

  /** The unit of the first alias at or after a that matches u up to case. */
  function FindAlias(u: string, a: nat): (r: Option<nat>)
    requires a <= |Aliases|
    ensures r.Some? ==> exists b :: a <= b < |Aliases| && Aliases[b].unitIndex == r.value && EqualsIgnoreCase(u, Aliases[b].alias)
    ensures r.None? ==> forall b :: a <= b < |Aliases| ==> !EqualsIgnoreCase(u, Aliases[b].alias)
    decreases |Aliases| - a
  {
    if a == |Aliases| then None
    else if EqualsIgnoreCase(u, Aliases[a].alias) then Some(Aliases[a].unitIndex)
    else FindAlias(u, a + 1)
  }

  /** The unit named u: the names first, then the aliases. */
  function LookupUnit(u: string): (r: Option<nat>)
    ensures r.Some? ==> r.value < |Units|
    ensures r.None? <==>
      (forall j :: 0 <= j < |Units| ==> !EqualsIgnoreCase(u, Units[j].name)) &&
      (forall b :: 0 <= b < |Aliases| ==> !EqualsIgnoreCase(u, Aliases[b].alias))
  {
    NamesDistinct();
    match FindUnit(u, 0)
    case Some(k) => Some(k)
    case None => FindAlias(u, 0)
  }

  /** `numeric_mul` by the multiplier, done only when it exceeds one; a
      multiplier of one leaves the number as it is. */
  function Multiply(num: Decimal, multiplier: nat): (r: Decimal)
    ensures r.scale == num.scale
    ensures multiplier >= 1 ==> r.coef == num.coef * multiplier
  {
    if multiplier > 1 then Decimal(num.coef * multiplier, num.scale) else num
  }

  /** What `pg_size_bytes(s)` returns: the size as a numeric, converted
      to bigint. */
  function SizeValue(s: string): (r: Outcome<int64>)
    ensures SizeNumeric(s).Err? ==> r == Err(SizeNumeric(s).error)
    ensures SizeNumeric(s).Ok? ==> var n := RoundToInteger(SizeNumeric(s).value);
      if INT64_MIN <= n < 0x8000_0000_0000_0000 then r.Ok? && r.value as int == n
      else r == Err(BigintOutOfRange)
  {
    match SizeNumeric(s)
    case Err(e) => Err(e)
    case Ok(num) => Int8(num)
  }

  /** `numeric_int8`: the value rounded to the nearest integer, halves away
      from zero, or an error when that is outside the bigint range. */
  function Int8(num: Decimal): (r: Outcome<int64>)
    ensures r.Ok? <==> INT64_MIN <= RoundToInteger(num) < 0x8000_0000_0000_0000
    ensures r.Ok? ==> r.value as int == RoundToInteger(num)
    ensures r.Err? ==> r.error == BigintOutOfRange
  {
    var n := RoundToInteger(num);
    if INT64_MIN <= n < 0x8000_0000_0000_0000 then Ok(n as int64) else Err(BigintOutOfRange)
  }

  /** The size `pg_size_bytes(s)` reads as a numeric, step by step: white
      space, the number, white space, and an optional unit running to the
      trailing white space. */
  function SizeNumeric(s: string): (r: Outcome<Decimal>)
    ensures r == Err(InvalidSize(s)) <==> !HaveDigits(s, SignEnd(s, SkipSpaces(s, 0)))
    ensures r.Err? ==> r.error != BigintOutOfRange
    ensures r.Err? && r.error.InvalidNumeric? ==> NumericIn(r.error.number) == None
    ensures r.Err? && r.error.InvalidUnit? ==> r.error.input == s && LookupUnit(r.error.unit) == None
  {
    var start := SkipSpaces(s, 0);
    var m := SignEnd(s, start);
    if !HaveDigits(s, m) then Err(InvalidSize(s))
    else
      var e := ExponentEnd(s, MantissaEnd(s, m));
      var number := s[start..e];
      match NumericIn(number)
      case None => Err(InvalidNumeric(number))
      case Some(num) => WithUnit(s, e, num)
  }

  /** The rest of `pg_size_bytes` once the number, ending at e, has been
      read as num: nothing but white space, or a unit. Either the number is
      multiplied by the size of some unit (bytes, for no unit), or the unit
      is not in the tables. */
  function WithUnit(s: string, e: nat, num: Decimal): (r: Outcome<Decimal>)
    requires e <= |s|
    ensures r.Err? ==> r.error.InvalidUnit? && r.error.input == s && LookupUnit(r.error.unit) == None
    ensures r.Ok? ==> r.value.scale == num.scale
    ensures r.Ok? ==> exists k :: 0 <= k < |Units| && r.value.coef == num.coef * Pow2(Units[k].unitbits)
  {
    var u := SkipSpaces(s, e);
    if u == |s| then
      assert num.coef == num.coef * Pow2(Units[0].unitbits);
      Ok(num)
    else
      var unit := s[u..TrimEnd(s, u, |s|)];
      match LookupUnit(unit)
      case None => Err(InvalidUnit(s, unit))
      case Some(k) => Ok(Multiply(num, Pow2(Units[k].unitbits)))
  }

  /** `pg_size_bytes(text)`. The C code walks two char positions over a copy of
      the text and writes a terminator into it to delimit the number and
      the unit; here those positions are indices and the delimited parts are
      slices. The end of the text plays the part of the terminator (a text
      value holds no zero byte). */
  method PgSizeBytes(arg: string) returns (r: Outcome<int64>)
    ensures r == SizeValue(arg)
  {
    // skip leading whitespace
    var strptr := 0;
    while strptr < |arg| && IsSpace(arg[strptr])
      invariant strptr <= |arg|
      invariant SkipSpaces(arg, strptr) == SkipSpaces(arg, 0)
    {
      strptr := strptr + 1;
    }

    // parts (1) to (3): sign, digits, decimal point and fraction
    var endptr, haveDigits := ScanMantissa(arg, strptr);
    if !haveDigits {
      return Err(InvalidSize(arg));
    }

    // part (4): optional exponent
    ghost var mantissaEnd := endptr;
    if endptr < |arg| && (arg[endptr] == 'e' || arg[endptr] == 'E') {
      var cp := StrtolEnd(arg, endptr + 1);
      if cp > endptr + 1 {
        endptr := cp;
      }
    }
    assert endptr == ExponentEnd(arg, mantissaEnd);
    assert SizeNumeric(arg) == match NumericIn(arg[strptr..endptr])
      case None => Err(InvalidNumeric(arg[strptr..endptr]))
      case Some(num) => WithUnit(arg, endptr, num);

    var number := arg[strptr..endptr];
    var num: Decimal;
    match NumericIn(number) {
      case None =>
        return Err(InvalidNumeric(number));
      case Some(v) =>
        var withUnit := ParseUnit(arg, endptr, v);
        if withUnit.Err? {
          return Err(withUnit.error);
        }
        num := withUnit.value;
    }

    r := Int8(num);
  }

  /** The sign, the main digit string, and an optional point followed by
      fractional digits, from i; also whether any digit was seen. */
  method ScanMantissa(arg: string, i: nat) returns (endptr: nat, haveDigits: bool)
    requires i <= |arg|
    ensures endptr == MantissaEnd(arg, SignEnd(arg, i))
    ensures haveDigits == HaveDigits(arg, SignEnd(arg, i))
  {
    endptr := i;
    // part (1): sign
    if endptr < |arg| && (arg[endptr] == '-' || arg[endptr] == '+') {
      endptr := endptr + 1;
    }
    // part (2): main digit string
    var start := endptr;
    endptr := DigitRun(arg, start);
    haveDigits := endptr > start;

    // part (3): optional decimal point and fractional digits
    if endptr < |arg| && arg[endptr] == '.' {
      start := endptr + 1;
      endptr := DigitRun(arg, start);
      haveDigits := haveDigits || endptr > start;
    }
  }

  /** A run of digits as the scanner reads it: if a digit is at `start`, step
      over it and every digit after it. */
  method DigitRun(arg: string, start: nat) returns (endptr: nat)
    requires start <= |arg|
    ensures endptr == SkipDigits(arg, start)
  {
    endptr := start;
    if endptr < |arg| && IsDigit(arg[endptr]) {
      endptr := endptr + 1;
      while endptr < |arg| && IsDigit(arg[endptr])
        invariant start < endptr <= |arg|
        invariant SkipDigits(arg, endptr) == SkipDigits(arg, start)
      {
        endptr := endptr + 1;
      }
    }
  }

  /** The part after the number, which ends at endptr and reads as num. */
  method ParseUnit(arg: string, endptr: nat, num: Decimal) returns (r: Outcome<Decimal>)
    requires endptr <= |arg|
    ensures r == WithUnit(arg, endptr, num)
  {
    // skip whitespace between number and unit
    var strptr := endptr;
    while strptr < |arg| && IsSpace(arg[strptr])
      invariant endptr <= strptr <= |arg|
      invariant SkipSpaces(arg, strptr) == SkipSpaces(arg, endptr)
    {
      strptr := strptr + 1;
    }
    if strptr == |arg| {
      return Ok(num);
    }

    // trim trailing whitespace
    var last := |arg| - 1;
    while IsSpace(arg[last])
      invariant strptr <= last < |arg|
      invariant TrimEnd(arg, strptr, last + 1) == TrimEnd(arg, strptr, |arg|)
      decreases last
    {
      last := last - 1;
    }
    var unit := arg[strptr..last + 1];

    var k := UnitIndex(unit);
    if k == |Units| {
      return Err(InvalidUnit(arg, unit));
    }
    var multiplier := Pow2(Units[k].unitbits);
    var product := num;
    if multiplier > 1 {
      product := Decimal(num.coef * multiplier, num.scale);
    }
    r := Ok(product);
  }

  /** The search of the unit table and then of the alias table; |Units|
      when neither holds the unit. */
  method UnitIndex(unit: string) returns (k: nat)
    ensures k <= |Units|
    ensures k < |Units| <==> LookupUnit(unit) == Some(k)
    ensures k == |Units| <==> LookupUnit(unit) == None
  {
    k := 0;
    while k < |Units| && !EqualsIgnoreCase(unit, Units[k].name)
      invariant k <= |Units|
      invariant FindUnit(unit, k) == FindUnit(unit, 0)
    {
      k := k + 1;
    }
    if k == |Units| {
      // not found: look in the table of aliases
      NamesDistinct();
      var a := 0;
      while a < |Aliases|
        invariant a <= |Aliases|
        invariant FindAlias(unit, a) == FindAlias(unit, 0)
      {
        if EqualsIgnoreCase(unit, Aliases[a].alias) {
          k := Aliases[a].unitIndex;
          break;
        }
        a := a + 1;
      }
    }
  }

  /** A character that ends a number without being read as part of it:
      not a digit, not a point and not an exponent marker. */
  predicate EndsNumber(c: char)
  {
    !IsDigit(c) && c != '.' && c != 'e' && c != 'E'
  }

  /** The characters of s from i to j, when they read as digits. */
  lemma DigitsIn(s: string, i: nat, j: nat)
    requires i <= j <= |s| && AllDigits(s[i..j])
    ensures forall k :: i <= k < j ==> IsDigit(s[k])
  {
    forall k | i <= k < j
      ensures IsDigit(s[k])
    {
      assert s[k] == s[i..j][k - i];
    }
  }

  /** An exponent part at j, followed by the end of the text or by a
      character that is not a digit, is taken up to its end e. */
  lemma ScanExponent(s: string, j: nat, x: Exponent, e: nat)
    requires ValidExponent(x) && j <= e <= |s| && s[j..e] == ExponentText(Some(x))
    requires e == |s| || !IsDigit(s[e])
    ensures ExponentEnd(s, j) == e
  {
    var z := j + 1;
    var w := z + |x.sign|;
    assert s[j] == s[j..e][0] == x.marker;
    assert s[z..w] == s[j..e][1..1 + |x.sign|] == x.sign;
    assert s[w..e] == s[j..e][1 + |x.sign|..] == x.digits;
    assert w < e && s[w] == s[w..e][0] == x.digits[0];
    if x.sign != "" {
      assert s[z] == s[z..w][0];
    } else {
      assert z == w;
    }
    SkipSpacesAt(s, z, z);
    assert SignEnd(s, z) == w;
    DigitsIn(s, w, e);
    SkipDigitsAt(s, w, e);
  }

  /** The scanner on a literal laid out piece by piece in s from a to e,
      followed by the end of the text or a character that ends a number:
      the number it delimits is exactly the literal. */
  lemma ScanPieces(s: string, l: Literal, a: nat, w: nat, q: nat, f: nat, g: nat, e: nat)
    requires ValidLiteral(l) && a <= w <= q <= f <= g <= e <= |s|
    requires s[a..w] == l.sign && s[w..q] == l.whole && s[q..f] == (if l.point then "." else "")
    requires s[f..g] == l.fraction && s[g..e] == ExponentText(l.exponent)
    requires e == |s| || EndsNumber(s[e])
    ensures !IsSpace(s[a]) && SignEnd(s, a) == w && HaveDigits(s, w)
    ensures ExponentEnd(s, MantissaEnd(s, w)) == e
  {
    // the first character: a sign, a digit or the point
    if w > a {
      assert s[a] == s[a..w][0];
    } else if q > w {
      assert s[a] == s[w..q][0];
    } else {
      assert s[a] == s[q..f][0];
    }
    // what follows the mantissa: an exponent marker or what ends the number
    if e > g {
      assert s[g] == s[g..e][0];
    }
    ScanMantissaPieces(s, l, w, q, f, g);
    ScanExponentPart(s, g, l.exponent, e);
  }

  /** The digits, the point and the fractional digits of a literal, from w
      to g, followed by the end of the text or a character that is not a
      digit (nor a point, when the literal has none). */
  lemma ScanMantissaPieces(s: string, l: Literal, w: nat, q: nat, f: nat, g: nat)
    requires ValidLiteral(l) && w <= q <= f <= g <= |s|
    requires s[w..q] == l.whole && s[q..f] == (if l.point then "." else "") && s[f..g] == l.fraction
    requires g == |s| || (!IsDigit(s[g]) && (l.point || s[g] != '.'))
    ensures HaveDigits(s, w) && MantissaEnd(s, w) == g
  {
    DigitsIn(s, w, q);
    if l.point {
      assert s[q] == s[q..f][0];
      DigitsIn(s, f, g);
      SkipDigitsAt(s, f, g);
    }
    SkipDigitsAt(s, w, q);
  }

  /** An optional exponent part from g to e, followed by the end of the
      text or a character that ends a number. */
  lemma ScanExponentPart(s: string, g: nat, x: Option<Exponent>, e: nat)
    requires g <= e <= |s| && s[g..e] == ExponentText(x)
    requires x.Some? ==> ValidExponent(x.value)
    requires e == |s| || EndsNumber(s[e])
    ensures ExponentEnd(s, g) == e
  {
    match x {
      case None =>
        assert e == g;
      case Some(y) =>
        ScanExponent(s, g, y, e);
    }
  }

  /** The characters of s before i, when they are white space. */
  lemma SpacesBefore(s: string, i: nat)
    requires i <= |s| && AllSpaces(s[..i])
    ensures forall k :: 0 <= k < i ==> IsSpace(s[k])
  {
    forall k | 0 <= k < i
      ensures IsSpace(s[k])
    {
      assert s[k] == s[..i][k];
    }
  }

  /** The scanner on a literal after white space, followed by the end of
      the text or a character that ends a number. */
  lemma ScanLiteral(s: string, lead: string, l: Literal, rest: string)
    requires AllSpaces(lead) && ValidLiteral(l)
    requires rest == [] || EndsNumber(rest[0])
    requires s == lead + LiteralText(l) + rest
    ensures var a := |lead|; var e := a + |LiteralText(l)|;
      && e <= |s| && s[a..e] == LiteralText(l)
      && SkipSpaces(s, 0) == a && HaveDigits(s, SignEnd(s, a))
      && ExponentEnd(s, MantissaEnd(s, SignEnd(s, a))) == e
  {
    ScanNumber(s, lead, l, rest);
    SpacesBefore(s, |lead|);
    SkipSpacesAt(s, 0, |lead|);
  }

  /** The number part of ScanLiteral. */
  lemma ScanNumber(s: string, lead: string, l: Literal, rest: string)
    requires ValidLiteral(l)
    requires rest == [] || EndsNumber(rest[0])
    requires s == lead + LiteralText(l) + rest
    ensures var a := |lead|; var e := a + |LiteralText(l)|;
      && e <= |s| && s[a..e] == LiteralText(l) && s[..a] == lead
      && !IsSpace(s[a]) && HaveDigits(s, SignEnd(s, a))
      && ExponentEnd(s, MantissaEnd(s, SignEnd(s, a))) == e
  {
    var a := |lead|;
    var e := a + |LiteralText(l)|;
    assert s[a..e] == LiteralText(l) && s[..a] == lead;
    assert e < |s| ==> s[e] == rest[0];
    ScanText(s, l, a, e);
  }

  /** The scanner on a literal spelled in s from a to e, followed by the
      end of the text or a character that ends a number. */
  lemma ScanText(s: string, l: Literal, a: nat, e: nat)
    requires ValidLiteral(l) && a <= e <= |s| && s[a..e] == LiteralText(l)
    requires e == |s| || EndsNumber(s[e])
    ensures !IsSpace(s[a]) && HaveDigits(s, SignEnd(s, a))
    ensures ExponentEnd(s, MantissaEnd(s, SignEnd(s, a))) == e
  {
    var pt: string := if l.point then "." else "";
    var w := a + |l.sign|;
    var q := w + |l.whole|;
    var f := q + |pt|;
    var g := f + |l.fraction|;
    SlicesAt(s, a, e, l.sign, l.whole, pt, l.fraction, ExponentText(l.exponent));
    ScanPieces(s, l, a, w, q, f, g, e);
  }

  /** The text after a number: nothing but white space gives the number
      itself. */
  lemma WithoutUnit(s: string, e: nat, num: Decimal)
    requires e <= |s| && AllSpaces(s[e..])
    ensures WithUnit(s, e, num) == Ok(num)
  {
    forall k | e <= k < |s|
      ensures IsSpace(s[k])
    {
      assert s[k] == s[e..][k - e];
    }
    SkipSpacesAt(s, e, |s|);
  }

  /** A unit u between white space: it is looked up, and the number is
      multiplied by the size of the unit found. */
  lemma WithUnitAt(s: string, e: nat, num: Decimal, gap: string, u: string, trail: string)
    requires e <= |s| && s[e..] == gap + u + trail
    requires AllSpaces(gap) && AllSpaces(trail)
    requires |u| > 0 && !IsSpace(u[0]) && !IsSpace(u[|u| - 1])
    ensures WithUnit(s, e, num) == match LookupUnit(u)
      case None => Err(InvalidUnit(s, u))
      case Some(k) => Ok(Multiply(num, Pow2(Units[k].unitbits)))
  {
    var b := e + |gap|;
    var c := b + |u|;
    forall k | e <= k < b
      ensures IsSpace(s[k])
    {
      assert s[k] == s[e..][k - e] == gap[k - e];
    }
    assert s[b] == s[e..][|gap|] == u[0];
    SkipSpacesAt(s, e, b);
    forall k | c <= k < |s|
      ensures IsSpace(s[k])
    {
      assert s[k] == s[e..][k - e] == trail[k - c];
    }
    assert s[c - 1] == s[e..][|gap| + |u| - 1] == u[|u| - 1];
    TrimAt(s, b, c);
    assert s[b..c] == s[e..][|gap|..|gap| + |u|] == u;
  }

  /** Trimming stops at the last character that is not white space. */
  lemma {:induction false} TrimAt(s: string, lo: nat, t: nat)
    requires lo < t <= |s| && !IsSpace(s[lo]) && !IsSpace(s[t - 1])
    requires forall k :: t <= k < |s| ==> IsSpace(s[k])
    ensures TrimEnd(s, lo, |s|) == t
  {
    TrimFrom(s, lo, t, |s|);
  }

  lemma {:induction false} TrimFrom(s: string, lo: nat, t: nat, hi: nat)
    requires lo < t <= hi <= |s| && !IsSpace(s[lo]) && !IsSpace(s[t - 1])
    requires forall k :: t <= k < hi ==> IsSpace(s[k])
    ensures TrimEnd(s, lo, hi) == t
    decreases hi
  {
    if hi > t {
      TrimFrom(s, lo, t, hi - 1);
    }
  }

  /** A literal with white space around it and no unit is read as the
      value it denotes. */
  lemma SizeOfLiteral(lead: string, l: Literal, trail: string)
    requires AllSpaces(lead) && AllSpaces(trail) && ValidLiteral(l)
    ensures SizeNumeric(lead + LiteralText(l) + trail) == Ok(LiteralValue(l))
  {
    var t := LiteralText(l);
    var s := lead + t + trail;
    var e := |lead| + |t|;
    if trail != [] {
      assert IsSpace(trail[0]);
    }
    ScanLiteral(s, lead, l, trail);
    NumericInLiteral(l);
    SizeNumericFrom(s, |lead|, SignEnd(s, |lead|), e, LiteralValue(l));
    assert s[e..] == trail;
    WithoutUnit(s, e, LiteralValue(l));
  }

  /** A literal followed by a unit, all with white space around: the unit
      is looked up and an unknown unit is an error; a known one multiplies
      the value of the literal by its size in bytes. */
  lemma SizeOfLiteralWithUnit(lead: string, l: Literal, gap: string, u: string, trail: string)
    requires AllSpaces(lead) && AllSpaces(gap) && AllSpaces(trail) && ValidLiteral(l)
    requires |u| > 0 && !IsSpace(u[0]) && !IsSpace(u[|u| - 1])
    requires gap != [] || EndsNumber(u[0])
    ensures var s := lead + LiteralText(l) + gap + u + trail;
      SizeNumeric(s) == match LookupUnit(u)
        case None => Err(InvalidUnit(s, u))
        case Some(k) => Ok(Multiply(LiteralValue(l), Pow2(Units[k].unitbits)))
  {
    var t := LiteralText(l);
    var rest := gap + u + trail;
    var s := lead + t + rest;
    assert s == lead + t + gap + u + trail;
    var e := |lead| + |t|;
    if gap != [] {
      assert rest[0] == gap[0];
    } else {
      assert rest[0] == u[0];
    }
    ScanLiteral(s, lead, l, rest);
    NumericInLiteral(l);
    SizeNumericFrom(s, |lead|, SignEnd(s, |lead|), e, LiteralValue(l));
    assert s[e..] == rest;
    WithUnitAt(s, e, LiteralValue(l), gap, u, trail);
  }

  /** An integer with white space around it and no unit is read as itself. */
  lemma SizeOfBareInteger(lead: string, n: int, trail: string)
    requires AllSpaces(lead) && AllSpaces(trail)
    ensures SizeNumeric(lead + IntText(n) + trail) == Ok(Decimal(n, 0))
  {
    DecimalTextOfInteger(n);
    SizeOfLiteral(lead, DecimalLiteral(Decimal(n, 0)), trail);
  }

  /** An integer followed by a unit, all with white space around. */
  lemma SizeOfIntegerWithUnit(lead: string, n: int, gap: string, u: string, trail: string)
    requires AllSpaces(lead) && AllSpaces(gap) && AllSpaces(trail)
    requires |u| > 0 && !IsSpace(u[0]) && !IsSpace(u[|u| - 1])
    requires gap != [] || EndsNumber(u[0])
    ensures var s := lead + IntText(n) + gap + u + trail;
      SizeNumeric(s) == match LookupUnit(u)
        case None => Err(InvalidUnit(s, u))
        case Some(k) => Ok(Multiply(Decimal(n, 0), Pow2(Units[k].unitbits)))
  {
    DecimalTextOfInteger(n);
    SizeOfLiteralWithUnit(lead, DecimalLiteral(Decimal(n, 0)), gap, u, trail);
  }

  /** A character whose fold is a letter other than e is a letter, so it
      neither continues a number nor is white space. */
  lemma FoldsToLetter(c: char, d: char)
    requires ToLower(c) == d && 'a' <= d <= 'z' && d != 'e'
    ensures EndsNumber(c) && !IsSpace(c)
  {
  }

  /** Every spelling of a unit starts with a letter that ends a number and
      ends with a letter. */
  lemma UnitSpelling(u: string)
    requires LookupUnit(u).Some?
    ensures |u| > 0 && EndsNumber(u[0]) && !IsSpace(u[0]) && !IsSpace(u[|u| - 1])
  {
    var v: string;
    if j :| 0 <= j < |Units| && EqualsIgnoreCase(u, Units[j].name) {
      v := Units[j].name;
    } else {
      var b :| 0 <= b < |Aliases| && EqualsIgnoreCase(u, Aliases[b].alias);
      v := Aliases[b].alias;
    }
    assert |v| > 0 && 'a' <= ToLower(v[0]) <= 'z' && ToLower(v[0]) != 'e';
    assert 'a' <= ToLower(v[|v| - 1]) <= 'z' && ToLower(v[|v| - 1]) != 'e';
    FoldsToLetter(u[0], ToLower(v[0]));
    FoldsToLetter(u[|u| - 1], ToLower(v[|v| - 1]));
  }

  lemma EqualsIgnoreCaseTrans(a: string, b: string, c: string)
    requires EqualsIgnoreCase(a, b) && EqualsIgnoreCase(b, c)
    ensures EqualsIgnoreCase(a, c) && EqualsIgnoreCase(c, a)
  {
  }

  /** The unit lookup is case-insensitive: u names unit k exactly when it
      equals the name of k up to case, or k is bytes and u is the alias B
      up to case. */
  lemma LookupUnitIff(u: string, k: nat)
    ensures LookupUnit(u) == Some(k) <==>
      (k < |Units| && EqualsIgnoreCase(u, Units[k].name)) || (k == 0 && EqualsIgnoreCase(u, "B"))
  {
    NamesDistinct();
    var r := FindUnit(u, 0);
    if k < |Units| && EqualsIgnoreCase(u, Units[k].name) {
      assert r.Some?;
      EqualsIgnoreCaseTrans(Units[k].name, u, Units[r.value].name);
      assert r.value == k;
    } else if k == 0 && EqualsIgnoreCase(u, "B") {
      assert |u| == 1;
      assert r.None?;
    }
  }

  /** Each unit is found under its own name. */
  lemma LookupName(i: nat)
    requires i < |Units|
    ensures LookupUnit(Units[i].name) == Some(i)
  {
    LookupUnitIff(Units[i].name, i);
  }

  /** `have_digits` holds exactly when a digit, or a point and a digit,
      follows the sign. */
  lemma HaveDigitsIff(s: string, m: nat)
    requires m <= |s|
    ensures HaveDigits(s, m) <==>
      (m < |s| && IsDigit(s[m])) || (m + 1 < |s| && s[m] == '.' && IsDigit(s[m + 1]))
  {
  }

  /** `pg_size_bytes` reports an invalid size for the text itself exactly
      when no digit, or point and digit, follows the leading white space
      and the sign. */
  lemma InvalidSizeIff(s: string)
    ensures var m := SignEnd(s, SkipSpaces(s, 0));
      SizeValue(s) == Err(InvalidSize(s)) <==>
        !((m < |s| && IsDigit(s[m])) || (m + 1 < |s| && s[m] == '.' && IsDigit(s[m + 1])))
  {
    HaveDigitsIff(s, SignEnd(s, SkipSpaces(s, 0)));
  }

  /** Texts with no digit where one is needed. */
  lemma NoDigitsExamples()
    ensures SizeValue("") == Err(InvalidSize(""))
    ensures SizeValue("+") == Err(InvalidSize("+"))
    ensures SizeValue(".") == Err(InvalidSize("."))
    ensures SizeValue("kB") == Err(InvalidSize("kB"))
  {
    InvalidSizeIff("");
    InvalidSizeIff("+");
    InvalidSizeIff(".");
    InvalidSizeIff("kB");
  }

  /** SizeNumeric once the number is known to end at e and to be num. */
  lemma SizeNumericFrom(s: string, start: nat, m: nat, e: nat, num: Decimal)
    requires start == SkipSpaces(s, 0) && m == SignEnd(s, start) && HaveDigits(s, m)
    requires e == ExponentEnd(s, MantissaEnd(s, m)) && start <= e
    requires NumericIn(s[start..e]) == Some(num)
    ensures SizeNumeric(s) == WithUnit(s, e, num)
  {
  }

  /** No character of t is white space. */
  predicate SpaceFree(t: string)
  {
    forall k :: 0 <= k < |t| ==> !IsSpace(t[k])
  }

  lemma SpaceFreeJoin(a: string, b: string)
    requires SpaceFree(a) && SpaceFree(b)
    ensures SpaceFree(a + b)
  {
    forall k | 0 <= k < |a + b|
      ensures !IsSpace((a + b)[k])
    {
      if k >= |a| {
        assert (a + b)[k] == b[k - |a|];
      }
    }
  }

  /** No character of a literal is white space. */
  lemma LiteralHasNoSpace(l: Literal)
    requires ValidLiteral(l)
    ensures SpaceFree(LiteralText(l))
  {
    var pt: string := if l.point then "." else "";
    var x := ExponentText(l.exponent);
    assert SpaceFree(l.sign) && SpaceFree(l.whole) && SpaceFree(pt) && SpaceFree(l.fraction);
    match l.exponent {
      case None =>
      case Some(y) =>
        assert SpaceFree([y.marker]) && SpaceFree(y.sign) && SpaceFree(y.digits);
        SpaceFreeJoin([y.marker], y.sign);
        SpaceFreeJoin([y.marker] + y.sign, y.digits);
    }
    SpaceFreeJoin(l.sign, l.whole);
    SpaceFreeJoin(l.sign + l.whole, pt);
    SpaceFreeJoin(l.sign + l.whole + pt, l.fraction);
    SpaceFreeJoin(l.sign + l.whole + pt + l.fraction, x);
  }

  /** The exponent strtol takes at j, as an exponent part, when no white
      space follows the `e`. */
  lemma ExponentSlice(s: string, j: nat) returns (x: Option<Exponent>)
    requires j <= |s| && (ExponentEnd(s, j) > j ==> !IsSpace(s[j + 1]))
    ensures x.Some? ==> ValidExponent(x.value)
    ensures ExponentText(x) == s[j..ExponentEnd(s, j)]
  {
    var e := ExponentEnd(s, j);
    x := None;
    if e > j {
      SkipSpacesAt(s, j + 1, j + 1);
      var k := SignEnd(s, j + 1);
      SkipDigitsAt(s, k, e);
      SkippedDigits(s, k);
      x := Some(Exponent(s[j], s[j + 1..k], s[k..e]));
      assert s[j..e] == [s[j]] + s[j + 1..k] + s[k..e];
    }
  }

  /** The digits, point and fractional digits the scanner steps over from
      m, as the pieces of a literal. */
  lemma MantissaSlice(s: string, m: nat) returns (whole: string, point: bool, fraction: string)
    requires m <= |s| && HaveDigits(s, m)
    ensures AllDigits(whole) && AllDigits(fraction) && (point || fraction == "")
    ensures |whole| + |fraction| > 0
    ensures s[m..MantissaEnd(s, m)] == whole + (if point then "." else "") + fraction
  {
    var q := SkipDigits(s, m);
    point := q < |s| && s[q] == '.';
    var f := if point then q + 1 else q;
    var j := MantissaEnd(s, m);
    SkippedDigits(s, m);
    whole := s[m..q];
    fraction := s[f..j];
    if point {
      SkippedDigits(s, f);
      assert s[q..f] == ".";
    }
    assert s[m..j] == s[m..q] + s[q..f] + s[f..j];
  }

  /** The number the scanner delimits is a literal, unless white space
      follows an `e` or `E` that strtol took as the start of an exponent. */
  lemma DelimitedLiteral(s: string) returns (l: Literal)
    requires HaveDigits(s, SignEnd(s, SkipSpaces(s, 0)))
    requires var j := MantissaEnd(s, SignEnd(s, SkipSpaces(s, 0)));
      ExponentEnd(s, j) > j ==> !IsSpace(s[j + 1])
    ensures var start := SkipSpaces(s, 0);
      ValidLiteral(l) && LiteralText(l) == s[start..ExponentEnd(s, MantissaEnd(s, SignEnd(s, start)))]
  {
    var start := SkipSpaces(s, 0);
    var m := SignEnd(s, start);
    var j := MantissaEnd(s, m);
    l := LiteralAt(s, start, m, j, ExponentEnd(s, j));
  }

  /** DelimitedLiteral once the scanner's positions are known: the sign
      ends at m, the mantissa at j and the exponent part at e. */
  lemma LiteralAt(s: string, start: nat, m: nat, j: nat, e: nat) returns (l: Literal)
    requires start <= |s| && m == SignEnd(s, start) && HaveDigits(s, m)
    requires j == MantissaEnd(s, m) && e == ExponentEnd(s, j)
    requires e > j ==> !IsSpace(s[j + 1])
    ensures ValidLiteral(l) && LiteralText(l) == s[start..e]
  {
    var whole, point, fraction := MantissaSlice(s, m);
    var x := ExponentSlice(s, j);
    if m > start {
      assert s[start..m] == [s[start]];
    }
    l := Literal(s[start..m], whole, point, fraction, x);
    LiteralOfSlices(s, start, m, j, e, l);
  }

  /** A literal whose sign, mantissa and exponent part are adjacent slices
      of s is spelt as the slice they make up. */
  lemma LiteralOfSlices(s: string, a: nat, m: nat, j: nat, e: nat, l: Literal)
    requires a <= m <= j <= e <= |s|
    requires s[a..m] == l.sign && s[m..j] == l.whole + (if l.point then "." else "") + l.fraction
    requires s[j..e] == ExponentText(l.exponent)
    ensures LiteralText(l) == s[a..e]
  {
    assert s[a..e] == s[a..m] + s[m..j] + s[j..e];
  }

  /** Once the digit check has passed, `pg_size_bytes` reports an invalid
      numeric exactly when white space follows an `e` or `E` that strtol
      took as the start of an exponent (strtol skips that white space and
      numeric_in does not), and the text it reports is the number. */
  lemma InvalidNumericIff(s: string)
    requires HaveDigits(s, SignEnd(s, SkipSpaces(s, 0)))
    ensures var start := SkipSpaces(s, 0); var j := MantissaEnd(s, SignEnd(s, start));
      var e := ExponentEnd(s, j); var r := SizeValue(s);
      && (r.Err? && r.error.InvalidNumeric? <==> e > j && IsSpace(s[j + 1]))
      && (r.Err? && r.error.InvalidNumeric? ==> r.error.number == s[start..e])
  {
    var start := SkipSpaces(s, 0);
    var j := MantissaEnd(s, SignEnd(s, start));
    var e := ExponentEnd(s, j);
    if e > j && IsSpace(s[j + 1]) {
      SpaceAfterE(s);
    } else {
      NoSpaceAfterE(s);
    }
  }

  /** White space after the `e` of a taken exponent: numeric_in rejects the
      number. */
  lemma SpaceAfterE(s: string)
    requires HaveDigits(s, SignEnd(s, SkipSpaces(s, 0)))
    requires var j := MantissaEnd(s, SignEnd(s, SkipSpaces(s, 0)));
      ExponentEnd(s, j) > j && IsSpace(s[j + 1])
    ensures var start := SkipSpaces(s, 0);
      SizeNumeric(s) == Err(InvalidNumeric(s[start..ExponentEnd(s, MantissaEnd(s, SignEnd(s, start)))]))
  {
    var start := SkipSpaces(s, 0);
    var j := MantissaEnd(s, SignEnd(s, start));
    SpaceNotNumeric(s, start, ExponentEnd(s, j), j + 1);
  }

  /** Otherwise numeric_in reads the number, and only the unit can be in
      error. */
  lemma NoSpaceAfterE(s: string)
    requires HaveDigits(s, SignEnd(s, SkipSpaces(s, 0)))
    requires var j := MantissaEnd(s, SignEnd(s, SkipSpaces(s, 0)));
      ExponentEnd(s, j) > j ==> !IsSpace(s[j + 1])
    ensures SizeNumeric(s).Ok? || SizeNumeric(s).error.InvalidUnit?
  {
    var start := SkipSpaces(s, 0);
    var m := SignEnd(s, start);
    var e := ExponentEnd(s, MantissaEnd(s, m));
    var l := DelimitedLiteral(s);
    NumericInLiteral(l);
    SizeNumericFrom(s, start, m, e, LiteralValue(l));
  }

  /** numeric_in rejects a text with white space in it. */
  lemma SpaceNotNumeric(s: string, a: nat, e: nat, k: nat)
    requires a <= k < e <= |s| && IsSpace(s[k])
    ensures NumericIn(s[a..e]) == None
  {
    var t := s[a..e];
    assert t[k - a] == s[k];
    if NumericIn(t).Some? {
      LiteralHasNoSpace(LiteralOf(t));
    }
  }

  /** An `e` or `E` after the digits that strtol does not take as an
      exponent, because no integer follows it, starts the unit; and no unit
      starts with an e. */
  lemma UnitStartsAtE(s: string)
    requires HaveDigits(s, SignEnd(s, SkipSpaces(s, 0)))
    requires var j := MantissaEnd(s, SignEnd(s, SkipSpaces(s, 0)));
      j < |s| && (s[j] == 'e' || s[j] == 'E') && !IntegerFollows(s, j + 1)
    ensures var j := MantissaEnd(s, SignEnd(s, SkipSpaces(s, 0)));
      SizeValue(s) == Err(InvalidUnit(s, s[j..TrimEnd(s, j, |s|)]))
  {
    var start := SkipSpaces(s, 0);
    var m := SignEnd(s, start);
    var j := MantissaEnd(s, m);
    NoExponentAt(s, j);
    var l := DelimitedLiteral(s);
    NumericInLiteral(l);
    SizeNumericFrom(s, start, m, j, LiteralValue(l));
    UnitWithE(s, j, LiteralValue(l));
  }

  /** strtol takes no exponent at j when no integer follows the mark. */
  lemma NoExponentAt(s: string, j: nat)
    requires j < |s| && !IntegerFollows(s, j + 1)
    ensures ExponentEnd(s, j) == j
  {
  }

  /** A unit that starts with an e is not found. */
  lemma UnitWithE(s: string, j: nat, num: Decimal)
    requires j < |s| && (s[j] == 'e' || s[j] == 'E')
    ensures WithUnit(s, j, num) == Err(InvalidUnit(s, s[j..TrimEnd(s, j, |s|)]))
  {
    SkipSpacesAt(s, j, j);
    NoUnitStartsWithE(s[j..TrimEnd(s, j, |s|)]);
  }

  /** No unit is spelt with a leading e, in either case. */
  lemma NoUnitStartsWithE(u: string)
    requires |u| > 0 && ToLower(u[0]) == 'e'
    ensures LookupUnit(u) == None
  {
    forall j | 0 <= j < |Units|
      ensures !EqualsIgnoreCase(u, Units[j].name)
    {
      assert ToLower(Units[j].name[0]) != 'e';
    }
    assert ToLower(Aliases[0].alias[0]) != 'e';
  }

  /** An `e` followed by an integer is an exponent: "1e3" is a thousand
      bytes. */
  lemma ExponentTaken()
    ensures SizeValue("1e3") == Ok(1000)
  {
    var l := Literal("", "1", false, "", Some(Exponent('e', "", "3")));
    assert LiteralText(l) == "1e3";
    assert JoinedValue("1", "") == 1 by {
      assert "1" + "" == "1";
    }
    assert ExponentOf(l.exponent) == 3;
    assert LiteralValue(l) == Decimal(1000, 0);
    SizeOfLiteral("", l, "");
    assert "" + LiteralText(l) + "" == "1e3";
  }

  /** An `e` with no integer after it is not an exponent: it starts the
      unit, here "e" or "eB", neither of which is a unit. */
  lemma UnitAfterE(s: string, u: string)
    requires s == "1" + u && (u == "e" || u == "eB")
    ensures SizeValue(s) == Err(InvalidUnit(s, u))
  {
    assert s[0] == '1' && s[1] == 'e' && (|s| == 2 || s[2] == 'B');
    SkipSpacesAt(s, 0, 0);
    SkipDigitsAt(s, 0, 1);
    assert MantissaEnd(s, 0) == 1;
    SkipSpacesAt(s, 2, 2);
    TrimAt(s, 1, |s|);
    assert s[1..|s|] == u;
    UnitStartsAtE(s);
  }

  /** White space after an `e` is skipped by strtol and not by numeric_in:
      "1e 3" is an invalid numeric, reported as the whole text. */
  lemma SpaceInExponent()
    ensures SizeValue("1e 3") == Err(InvalidNumeric("1e 3"))
  {
    var s := "1e 3";
    assert |s| == 4 && s[0] == '1' && s[1] == 'e' && s[2] == ' ' && s[3] == '3';
    SkipSpacesAt(s, 0, 0);
    SkipDigitsAt(s, 0, 1);
    assert MantissaEnd(s, 0) == 1;
    SkipSpacesAt(s, 2, 3);
    SkipDigitsAt(s, 3, 4);
    assert ExponentEnd(s, 1) == 4;
    assert s[0..4] == s;
    InvalidNumericIff(s);
  }
}
