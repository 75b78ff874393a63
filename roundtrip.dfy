/** What `pg_size_bytes` makes of the texts `pg_size_pretty` prints. */
module SizeRoundTrip {
  import opened CInt
  import opened Chars
  import opened SizeUnits
  import opened Numeric
  import opened SizePretty
  import opened SizeBytes

  const INT64_LIMIT: int := 0x8000_0000_0000_0000

  /** The size in bytes that the printed number in the printed unit stands
      for. */
  function ReadBackValue(x: int): int
  {
    PrettyNumber(x) * Pow2(Units[ChosenUnit(x)].unitbits)
  }

  /** The parser reads a number n printed with the name of unit u as n
      times the size of the unit. */
  lemma ReadPrinted(n: int, u: nat)
    requires u < |Units|
    ensures SizeNumeric(IntText(n) + " " + Units[u].name) == Ok(Decimal(n * Pow2(Units[u].unitbits), 0))
  {
    var name := Units[u].name;
    LookupName(u);
    UnitSpelling(name);
    SizeOfIntegerWithUnit([], n, " ", name, []);
    NothingAround(IntText(n), " ", name);
    WholeMultiply(n, Pow2(Units[u].unitbits));
  }

  /** Empty white space before and after a printed size. */
  lemma NothingAround(a: string, b: string, c: string)
    ensures [] + a + b + c + [] == a + b + c
  {
  }

  /** Multiplying a whole number by a unit size of at least one byte. */
  lemma WholeMultiply(n: int, m: nat)
    requires m >= 1
    ensures Multiply(Decimal(n, 0), m) == Decimal(n * m, 0)
  {
    if m == 1 {
      assert n * 1 == n;
    }
  }

  /** The parser reads the number and the unit of a printed size: the
      number times the size of the unit. */
  lemma PrettyTextRead(x: int)
    ensures SizeNumeric(PrettyText(x)) == Ok(Decimal(ReadBackValue(x), 0))
  {
    ReadPrinted(PrettyNumber(x), ChosenUnit(x));
  }

  /** Read back and converted to bigint, a printed size is the number times
      the unit when that fits in a bigint, and out of range otherwise. */
  lemma PrettyTextBytes(x: int)
    ensures INT64_MIN <= ReadBackValue(x) < INT64_LIMIT ==>
      SizeValue(PrettyText(x)) == Ok(ReadBackValue(x) as int64)
    ensures !(INT64_MIN <= ReadBackValue(x) < INT64_LIMIT) ==>
      SizeValue(PrettyText(x)) == Err(BigintOutOfRange)
  {
    PrettyTextRead(x);
  }

  /** Sizes below 10240 bytes in absolute value survive the round trip
      exactly: `pg_size_bytes(pg_size_pretty(x)) = x`. */
  lemma SmallRoundTrip(x: int64)
    requires Abs(x as int) < 10240
    ensures SizeValue(PrettyText(x as int)) == Ok(x)
  {
    SmallSizesExact(x as int);
    PrettyTextBytes(x as int);
  }

  /** Every int64 size comes back within one unit of itself, except the
      largest ones, which print as 8192 PB = 2^63 bytes, one more than the
      largest bigint. */
  lemma RoundTripWithinUnit(x: int64)
    ensures var r: Outcome<int64> := SizeValue(PrettyText(x as int));
      var b := Units[ChosenUnit(x as int)].unitbits;
      && (r.Ok? ==> Abs(r.value as int - x as int) < Pow2(b))
      && (r.Err? <==> ReadBackValue(x as int) == INT64_LIMIT)
      && (r.Err? ==> ChosenUnit(x as int) == |Units| - 1 && PrettyNumber(x as int) == 8192)
  {
    var v := x as int;
    ReadBackFacts(v);
    PrettyTextBytes(v);
  }

  /** The value a printed int64 size stands for is within one unit of the
      size, and a bigint unless it is 8192 PB. */
  lemma ReadBackFacts(v: int)
    requires INT64_MIN <= v < INT64_LIMIT
    ensures Abs(ReadBackValue(v) - v) < Pow2(Units[ChosenUnit(v)].unitbits)
    ensures INT64_MIN <= ReadBackValue(v) <= INT64_LIMIT
    ensures ReadBackValue(v) == INT64_LIMIT ==> ChosenUnit(v) == |Units| - 1 && PrettyNumber(v) == 8192
  {
    var u := ChosenUnit(v);
    var n := PrettyNumber(v);
    PrettyNumberApproximates(v);
    assert Abs(PrettyNumber(v) * Pow2(Units[ChosenUnit(v)].unitbits) - v) < Pow2(Units[ChosenUnit(v)].unitbits);
    PrettyNumberBelowLimit(v);
    UnitAt(u);
    assert Pow2(Units[u].unitbits) == Pow2(10 * u);
    ReadBackRange(v, n, u);
  }

  /** Powers of two of whole units. */
  lemma Pow2Units()
    ensures Pow2(10) == 0x400
    ensures Pow2(40) == 0x100_0000_0000
    ensures Pow2(50) == 0x4_0000_0000_0000
  {
    Pow2Add(10, 10);
    Pow2Add(20, 20);
    Pow2Add(40, 10);
  }

  /** A number n printed in unit u, within one unit of an int64 size v and
      below 10240 unless u is PB, stands for a bigint unless it is 8192 PB,
      which is 2^63. */
  lemma ReadBackRange(v: int, n: int, u: nat)
    requires INT64_MIN <= v < INT64_LIMIT && u < |Units|
    requires Abs(n * Pow2(10 * u) - v) < Pow2(10 * u)
    requires u + 1 < |Units| ==> Abs(n) < 10240
    ensures INT64_MIN <= n * Pow2(10 * u) <= INT64_LIMIT
    ensures n * Pow2(10 * u) == INT64_LIMIT <==> u + 1 == |Units| && n == 8192
  {
    var p := Pow2(10 * u);
    Pow2Units();
    if u + 1 < |Units| {
      Pow2Le(10 * u, 40);
      BelowPetabytes(n, p);
    } else {
      assert p == Pow2(50);
      PrintedPetabytes(v, n);
    }
  }

  /** Below 10240 units of at most 2^40 bytes is a bigint. */
  lemma BelowPetabytes(n: int, p: nat)
    requires Abs(n) < 10240 && 0 < p <= 0x100_0000_0000
    ensures INT64_MIN <= n * p < INT64_LIMIT
  {
    MulLe(p, 0x100_0000_0000, 10240);
    if n >= 0 {
      MulLe(n, 10240, p);
    } else {
      MulLe(-n, 10240, p);
      assert (-n) * p == -(n * p);
    }
  }

  /** In PB the printed number n is within one PB of an int64 size, so n is
      between -8192 and 8192 and n PB is a bigint unless n is 8192. */
  lemma PrintedPetabytes(v: int, n: int)
    requires INT64_MIN <= v < INT64_LIMIT
    requires -0x4_0000_0000_0000 < n * 0x4_0000_0000_0000 - v < 0x4_0000_0000_0000
    ensures -8192 <= n <= 8192
    ensures INT64_MIN <= n * 0x4_0000_0000_0000 < INT64_LIMIT <==> n != 8192
  {
    assert n * 0x4_0000_0000_0000 < 8193 * 0x4_0000_0000_0000;
    assert n * 0x4_0000_0000_0000 > -8193 * 0x4_0000_0000_0000;
  }

  const INT64_MAX: int := 0x7FFF_FFFF_FFFF_FFFF

  /** The shifts the formatter applies on the way to each unit, as powers
      of two. */
  lemma Pow2Shifts()
    ensures Pow2(9) == 0x200
    ensures Pow2(19) == 0x8_0000
    ensures Pow2(29) == 0x2000_0000
    ensures Pow2(39) == 0x80_0000_0000
    ensures Pow2(49) == 0x2_0000_0000_0000
  {
    Pow2Units();
    Pow2Add(9, 10);
    Pow2Add(19, 10);
    Pow2Add(29, 10);
    Pow2Add(39, 10);
  }

  /** Every unit below PB stops at fewer than 20479 * 2^39 bytes. */
  lemma ThresholdBelowPetabytes(j: nat)
    requires j + 1 < |Units|
    ensures Threshold(j) <= 20479 * 0x80_0000_0000
  {
    var limit := Units[j].limit;
    var p := Pow2(TotalBits(j));
    assert Threshold(j) == limit * p;
    TotalBitsTelescopes(j);
    UnitAt(j);
    Pow2Le(TotalBits(j), 39);
    Pow2Shifts();
    MulLe(limit, 20479, p);
    MulLe(p, 0x80_0000_0000, 20479);
  }

  /** The largest bigint reaches the threshold of every unit below PB, so
      it is printed in PB. */
  lemma LargestInPetabytes()
    ensures ChosenUnit(INT64_MAX) == |Units| - 1
  {
    forall j | 0 <= j < |Units| - 1
      ensures Abs(INT64_MAX) >= Threshold(j)
    {
      ThresholdBelowPetabytes(j);
    }
    ChosenUnitIff(INT64_MAX, |Units| - 1);
  }

  /** On the way to PB the loop divides the largest bigint down to 16383. */
  lemma LargestScaled()
    ensures Scaled(INT64_MAX, |Units| - 1) == 16383
  {
    ScaledIsOneDivision(INT64_MAX, |Units| - 1);
    TotalBitsTelescopes(|Units| - 1);
    Pow2Shifts();
    DivUnique(INT64_MAX, Pow2(49), 16383, Pow2(49) - 1);
  }

  /** A size the loop brings down to 16383 PB halves to "8192 PB", which is
      2^63 bytes and reads back out of range. */
  lemma PrintedAsLimit(x: int)
    requires ChosenUnit(x) == |Units| - 1 && Scaled(x, |Units| - 1) == 16383
    ensures PrettyText(x) == "8192 PB"
    ensures SizeValue(PrettyText(x)) == Err(BigintOutOfRange)
  {
    var n := PrettyNumber(x);
    assert n == HalfRounded(16383) == 8192;
    assert Units[|Units| - 1].name == "PB";
    assert IntText(8192) == "8192";
    assert "8192" + " " + "PB" == "8192 PB";
    Pow2Units();
    assert ReadBackValue(x) == 8192 * 0x4_0000_0000_0000;
    PrettyTextBytes(x);
  }

  /** The largest bigint prints as "8192 PB", which reads back out of
      range. */
  lemma LargestSizeNotReadBack()
    ensures PrettyText(INT64_MAX) == "8192 PB"
    ensures SizeValue(PrettyText(INT64_MAX)) == Err(BigintOutOfRange)
  {
    LargestInPetabytes();
    LargestScaled();
    PrintedAsLimit(INT64_MAX);
  }

  /** The numeric formatter on a whole number gives a text that reads
      back as the bigint formatter's does. */
  lemma NumericRoundTrip(n: int)
    ensures SizeValue(NumPrettyText(Decimal(n, 0))) == SizeValue(PrettyText(n))
  {
    NumericOnIntegers(n);
  }
}
