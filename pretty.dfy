/** `pg_size_pretty` for bigint and for numeric: a size in bytes printed
    with the largest unit that keeps the number small. */
module SizePretty {
  import opened CInt
  import opened Chars
  import opened SizeUnits
  import opened Numeric

  /** The size once the loop has moved past the units before unit i: every
      step divides it, truncating toward zero, by 2^StepBits. */
  function Scaled(x: int, i: nat): int
    requires i < |Units|
  {
    if i == 0 then x else Div(Scaled(x, i - 1), Pow2(StepBits(i - 1)))
  }

  /** The loop stops at unit i: it is the last unit, or the absolute size
      is below the unit's limit. */
  predicate Fits(x: int, i: nat)
    requires i < |Units|
  {
    i + 1 == |Units| || Abs(Scaled(x, i)) < Units[i].limit
  }

  /** The first unit at or after i that the loop stops at. */
  function ChooseFrom(x: int, i: nat): (u: nat)
    requires i < |Units|
    ensures i <= u < |Units| && Fits(x, u)
    ensures forall j :: i <= j < u ==> !Fits(x, j)
    decreases |Units| - i
  {
    if Fits(x, i) then i else ChooseFrom(x, i + 1)
  }

  function ChosenUnit(x: int): (u: nat)
    ensures u < |Units|
  {
    ChooseFrom(x, 0)
  }

  /** The number printed for a size of x bytes. */
  function PrettyNumber(x: int): int
  {
    var u := ChosenUnit(x);
    if Units[u].round then HalfRounded(Scaled(x, u)) else Scaled(x, u)
  }

  /** The text `pg_size_pretty(x)` returns: `INT64_FORMAT " %s"`, a number
      n and the name of a unit u such that n units are within one unit of
      x bytes, and n is below 10240 unless u is the last unit. */
  function PrettyText(x: int): (t: string)
    ensures var u := ChosenUnit(x); var n := PrettyNumber(x);
      && t == IntText(n) + " " + Units[u].name
      && Abs(n * Pow2(Units[u].unitbits) - x) < Pow2(Units[u].unitbits)
      && (u + 1 < |Units| ==> Abs(n) < 10240)
      && (u == 0 ==> n == x)
  {
    PrettyNumberApproximates(x);
    PrettyNumberBelowLimit(x);
    IntText(PrettyNumber(x)) + " " + Units[ChosenUnit(x)].name
  }

  /** `pg_size_pretty(bigint)`. The C loop runs over the table until it
      breaks at the unit it uses; here the loop, in ScaleToUnit, runs while
      the break condition is false, and the printing follows it. */
  method PgSizePretty(size: int64) returns (text: string)
    ensures text == PrettyText(size as int)
  {
    var cur, i := ScaleToUnit(size);
    if Units[i].round {
      // half_rounded(size): size has been divided at least once, so adding
      // one cannot overflow
      var adjusted: int64 := cur + (if cur < 0 then -1 else 1);
      cur := Div(adjusted as int, 2) as int64;
    }
    text := IntText(cur as int) + " " + Units[i].name;
  }

  /** The loop of `pg_size_pretty(bigint)` up to its break: the unit it
      stops at and the size divided down to that unit. */
  method ScaleToUnit(size: int64) returns (cur: int64, i: nat)
    ensures i == ChosenUnit(size as int) && cur as int == Scaled(size as int, i)
    ensures i > 0 ==> Abs(cur as int) <= 0x4000_0000_0000_0000
  {
    cur := size;
    i := 0;
    while !(i + 1 == |Units| || (UAbs(cur) as int) < Units[i].limit)
      invariant 0 <= i < |Units|
      invariant cur as int == Scaled(size as int, i)
      invariant ChooseFrom(size as int, i) == ChosenUnit(size as int)
      invariant i > 0 ==> Abs(cur as int) <= 0x4000_0000_0000_0000
      decreases |Units| - i
    {
      DivisionStep(size as int, cur as int, i);
      cur := Div(cur as int, Pow2(StepBits(i))) as int64;
      i := i + 1;
    }
  }

  /** One pass of the loop divides the size by at least two, so that it
      then fits in 63 bits with room to add one for the half rounding. */
  lemma DivisionStep(x: int, c: int, i: nat)
    requires i + 1 < |Units| && c == Scaled(x, i) && Abs(c) <= 0x8000_0000_0000_0000
    ensures Div(c, Pow2(StepBits(i))) == Scaled(x, i + 1)
    ensures Abs(Div(c, Pow2(StepBits(i)))) <= 0x4000_0000_0000_0000
  {
    var p := Pow2(StepBits(i));
    assert p == 2 * Pow2(StepBits(i) - 1);
    DivMagnitude(c, p);
    QuotientAtMostHalf(Abs(c), p);
  }

  /** The successive truncating divisions amount to a single one, by 2 to
      the sum of the shifts. */
  lemma {:induction false} ScaledIsOneDivision(x: int, i: nat)
    requires i < |Units|
    ensures Scaled(x, i) == Div(x, Pow2(TotalBits(i)))
  {
    if i > 0 {
      ScaledIsOneDivision(x, i - 1);
      DivDiv(x, Pow2(TotalBits(i - 1)), Pow2(StepBits(i - 1)));
      Pow2Add(TotalBits(i - 1), StepBits(i - 1));
    }
  }

  /** The smallest absolute size in bytes that unit i cannot hold. */
  function Threshold(i: nat): nat
    requires i < |Units|
  {
    Units[i].limit * Pow2(TotalBits(i))
  }

  lemma FitsIff(x: int, i: nat)
    requires i < |Units|
    ensures Fits(x, i) <==> i + 1 == |Units| || Abs(x) < Threshold(i)
  {
    ScaledIsOneDivision(x, i);
    DivMagnitude(x, Pow2(TotalBits(i)));
    DivLessIff(Abs(x), Pow2(TotalBits(i)), Units[i].limit);
  }

  /** Which unit is chosen, in terms of the size in bytes alone: unit u is
      used exactly when the size reaches the threshold of every smaller
      unit and u is PB or the size is below u's threshold. */
  lemma ChosenUnitIff(x: int, u: nat)
    requires u < |Units|
    ensures ChosenUnit(x) == u <==>
      (forall j :: 0 <= j < u ==> Abs(x) >= Threshold(j)) && (u + 1 == |Units| || Abs(x) < Threshold(u))
  {
    forall j | 0 <= j < |Units|
      ensures Fits(x, j) <==> j + 1 == |Units| || Abs(x) < Threshold(j)
    {
      FitsIff(x, j);
    }
  }

  /** Sizes with absolute value below 10240 are printed exactly, in bytes;
      every other size uses a larger unit. */
  lemma SmallSizesExact(x: int)
    ensures ChosenUnit(x) == 0 <==> Abs(x) < 10240
    ensures Abs(x) < 10240 ==> PrettyNumber(x) == x && PrettyText(x) == IntText(x) + " bytes"
  {
    ChosenUnitIff(x, 0);
    assert Threshold(0) == 10240;
  }

  lemma {:induction false} ScaledOdd(x: int, i: nat)
    requires i < |Units|
    ensures Scaled(-x, i) == -Scaled(x, i)
  {
    if i > 0 {
      ScaledOdd(x, i - 1);
      DivMagnitude(Scaled(x, i - 1), Pow2(StepBits(i - 1)));
    }
  }

  lemma {:induction false} ChooseFromOfNegation(x: int, i: nat)
    requires i < |Units|
    ensures ChooseFrom(-x, i) == ChooseFrom(x, i)
    decreases |Units| - i
  {
    ScaledOdd(x, i);
    assert Fits(-x, i) == Fits(x, i);
    if !Fits(x, i) {
      ChooseFromOfNegation(x, i + 1);
    }
  }

  /** Positive and negative sizes are printed alike: the same unit, and the
      negated number. */
  lemma PrettySignSymmetric(x: int)
    ensures ChosenUnit(-x) == ChosenUnit(x)
    ensures PrettyNumber(-x) == -PrettyNumber(x)
    ensures PrettyText(-x) == IntText(-PrettyNumber(x)) + " " + Units[ChosenUnit(x)].name
  {
    PrettyNegation(x);
    NegatedText(x, -x);
  }

  /** The text printed for y, when y has the unit of x and the negated
      number. */
  lemma NegatedText(x: int, y: int)
    requires ChosenUnit(y) == ChosenUnit(x) && PrettyNumber(y) == -PrettyNumber(x)
    ensures PrettyText(y) == IntText(-PrettyNumber(x)) + " " + Units[ChosenUnit(x)].name
  {
  }

  lemma PrettyNegation(x: int)
    ensures ChosenUnit(-x) == ChosenUnit(x)
    ensures PrettyNumber(-x) == -PrettyNumber(x)
  {
    ChooseFromOfNegation(x, 0);
    var u := ChosenUnit(x);
    ScaledOdd(x, u);
    HalfRoundedOdd(Scaled(x, u));
  }

  /** The number printed before PB is below 10240 in absolute value: the
      limits of the half-rounded units are counted in half units. */
  lemma PrettyNumberBelowLimit(x: int)
    ensures ChosenUnit(x) + 1 < |Units| ==> Abs(PrettyNumber(x)) < 10240
  {
    UnitAt(ChosenUnit(x));
    HalfRoundedOdd(Scaled(x, ChosenUnit(x)));
  }

  /** Truncating to half units and then half rounding to whole units of
      2h bytes misses the size by less than a whole unit. */
  lemma HalfUnitError(x: int, h: int, t: int, m: int)
    requires h > 0 && -h < x - t * h < h && m == 2 * h
    ensures Abs(HalfRounded(t) * m - x) < m
  {
    var n := HalfRounded(t);
    var e := 2 * n - t;
    assert -1 <= e <= 1;
    assert n * m - x == e * h + (t * h - x);
    assert -h <= e * h <= h;
  }

  /** In a half-rounded unit of 2^b bytes, the half-rounded scaled size
      is within one unit of the size. */
  lemma RoundedUnitError(x: int, u: nat, t: int, m: int)
    requires 0 < u < |Units|
    requires t == Scaled(x, u) && m == Pow2(Units[u].unitbits)
    ensures Abs(HalfRounded(t) * m - x) < m
  {
    UnitHalves(u);
    ScaledIsOneDivision(x, u);
    HalfUnitError(x, Pow2(TotalBits(u)), t, m);
  }

  /** A half-rounded unit is twice the divisor the loop has reached. */
  lemma UnitHalves(u: nat)
    requires 0 < u < |Units|
    ensures Pow2(Units[u].unitbits) == 2 * Pow2(TotalBits(u))
  {
    TotalBitsTelescopes(u);
    UnitAt(u);
  }

  /** The printed number n in unit u of 2^b bytes is within one unit of the
      size: |n * 2^b - x| < 2^b; in bytes it is exact. */
  lemma PrettyNumberApproximates(x: int)
    ensures ChosenUnit(x) == 0 ==> PrettyNumber(x) == x
    ensures Abs(PrettyNumber(x) * Pow2(Units[ChosenUnit(x)].unitbits) - x) < Pow2(Units[ChosenUnit(x)].unitbits)
  {
    var u := ChosenUnit(x);
    UnitAt(u);
    if u > 0 {
      RoundedUnitError(x, u, Scaled(x, u), Pow2(Units[u].unitbits));
    }
  }

  // pg_size_pretty(numeric)

  /** The numeric size once the loop has moved past the units before unit i. */
  function NumScaled(d: Decimal, i: nat): Decimal
    requires i < |Units|
  {
    if i == 0 then d else TruncatedDivide(NumScaled(d, i - 1), Pow2(StepBits(i - 1)))
  }

  predicate NumFits(d: Decimal, i: nat)
    requires i < |Units|
  {
    i + 1 == |Units| || AbsLess(NumScaled(d, i), Units[i].limit)
  }

  function NumChooseFrom(d: Decimal, i: nat): (u: nat)
    requires i < |Units|
    ensures i <= u < |Units| && NumFits(d, u)
    ensures forall j :: i <= j < u ==> !NumFits(d, j)
    decreases |Units| - i
  {
    if NumFits(d, i) then i else NumChooseFrom(d, i + 1)
  }

  function NumChosenUnit(d: Decimal): (u: nat)
    ensures u < |Units|
  {
    NumChooseFrom(d, 0)
  }

  /** The numeric value printed for a size of d bytes. */
  function NumPrettyValue(d: Decimal): Decimal
  {
    var u := NumChosenUnit(d);
    if Units[u].round then HalfRoundedNumeric(NumScaled(d, u)) else NumScaled(d, u)
  }

  /** The text `pg_size_pretty(numeric)` returns: `"%s %s"`. The unit is
      the one the bigint formatter picks for the truncated size; in bytes
      the size is printed as it is, fraction included, and in any larger
      unit as the bigint formatter prints the truncated size. */
  function NumPrettyText(d: Decimal): (t: string)
    ensures NumChosenUnit(d) == ChosenUnit(Trunc(d))
    ensures NumChosenUnit(d) == 0 ==> t == DecimalText(d) + " bytes"
    ensures NumChosenUnit(d) > 0 ==> t == PrettyText(Trunc(d))
  {
    NumPrettyParts(d);
    DecimalText(NumPrettyValue(d)) + " " + Units[NumChosenUnit(d)].name
  }

  lemma NumPrettyParts(d: Decimal)
    ensures NumChosenUnit(d) == ChosenUnit(Trunc(d))
    ensures var t := DecimalText(NumPrettyValue(d)) + " " + Units[NumChosenUnit(d)].name;
      && (NumChosenUnit(d) == 0 ==> t == DecimalText(d) + " bytes")
      && (NumChosenUnit(d) > 0 ==> t == PrettyText(Trunc(d)))
  {
    NumericMatchesBigint(d);
    if NumChosenUnit(d) == 0 {
      InBytes(DecimalText(d));
    } else {
      NumPrettyInteger(d, NumChosenUnit(d), PrettyNumber(Trunc(d)));
    }
  }

  /** A number printed in bytes. */
  lemma InBytes(a: string)
    ensures a + " " + Units[0].name == a + " bytes"
  {
    assert Units[0].name == "bytes";
  }

  /** Above bytes the numeric formatter prints a whole number. */
  lemma NumPrettyInteger(d: Decimal, u: nat, n: int)
    requires 0 < u < |Units| && u == NumChosenUnit(d) && u == ChosenUnit(Trunc(d))
    requires n == PrettyNumber(Trunc(d)) && NumPrettyValue(d) == Decimal(n, 0)
    ensures DecimalText(NumPrettyValue(d)) + " " + Units[u].name == PrettyText(Trunc(d))
  {
    DecimalTextOfInteger(n);
  }

  /** `pg_size_pretty(numeric)`, restructured like PgSizePretty. */
  method PgSizePrettyNumeric(size: Decimal) returns (text: string)
    ensures text == NumPrettyText(size)
  {
    var cur := size;
    var i := 0;
    while !(i + 1 == |Units| || AbsLess(cur, Units[i].limit))
      invariant 0 <= i < |Units|
      invariant cur == NumScaled(size, i)
      invariant NumChooseFrom(size, i) == NumChosenUnit(size)
      decreases |Units| - i
    {
      cur := TruncatedDivide(cur, Pow2(StepBits(i)));
      i := i + 1;
    }
    if Units[i].round {
      cur := HalfRoundedNumeric(cur);
    }
    text := DecimalText(cur) + " " + Units[i].name;
  }

  /** After the first division the numeric size is the integer the bigint
      loop holds for the integer part of the size. */
  lemma {:induction false} NumScaledIsScaled(d: Decimal, i: nat)
    requires 0 < i < |Units|
    ensures NumScaled(d, i) == Decimal(Scaled(Trunc(d), i), 0)
  {
    if i > 1 {
      NumScaledIsScaled(d, i - 1);
      assert Trunc(NumScaled(d, i - 1)) == Scaled(Trunc(d), i - 1);
    }
  }

  lemma NumFitsIff(d: Decimal, i: nat)
    requires i < |Units|
    ensures NumFits(d, i) <==> Fits(Trunc(d), i)
  {
    if i == 0 {
      AbsLessTrunc(d, Units[0].limit);
    } else {
      NumScaledIsScaled(d, i);
    }
  }

  lemma {:induction false} NumChooseFromIsChooseFrom(d: Decimal, i: nat)
    requires i < |Units|
    ensures NumChooseFrom(d, i) == ChooseFrom(Trunc(d), i)
    decreases |Units| - i
  {
    NumFitsIff(d, i);
    if !NumFits(d, i) {
      NumChooseFromIsChooseFrom(d, i + 1);
    }
  }

  /** The numeric formatter chooses the unit the bigint formatter chooses
      for the integer part of the size, prints the size itself when that
      unit is bytes, and otherwise prints the bigint formatter's number. */
  lemma NumericMatchesBigint(d: Decimal)
    ensures NumChosenUnit(d) == ChosenUnit(Trunc(d))
    ensures NumChosenUnit(d) == 0 ==> NumPrettyValue(d) == d
    ensures NumChosenUnit(d) > 0 ==> NumPrettyValue(d) == Decimal(PrettyNumber(Trunc(d)), 0)
  {
    NumChooseFromIsChooseFrom(d, 0);
    var u := NumChosenUnit(d);
    if u > 0 {
      NumScaledIsScaled(d, u);
      UnitAt(u);
    }
  }

  /** On a whole number both formatters print the same text. */
  lemma NumericOnIntegers(n: int)
    ensures NumPrettyText(Decimal(n, 0)) == PrettyText(n)
  {
    var d := Decimal(n, 0);
    assert Trunc(d) == n;
    NumericMatchesBigint(d);
    DecimalTextOfInteger(n);
    DecimalTextOfInteger(PrettyNumber(n));
    UnitAt(ChosenUnit(n));
  }
}
