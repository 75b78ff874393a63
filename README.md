# Size formatting and parsing of PostgreSQL (dbsize.c)

This project is a Dafny model of the human-readable size functions in
PostgreSQL's `src/backend/utils/adt/dbsize.c`, with proofs about them:

- `half_rounded`: divide by two, rounding halves away from zero.
- The unit tables `size_pretty_units` (bytes, kB, MB, GB, TB, PB) and
  `size_bytes_aliases` (B).
- `pg_size_pretty(bigint)`. It walks the unit table, divides the size by a
  power of two at each step with C's truncating division, and half-rounds
  in the unit it stops at.
- `pg_size_pretty(numeric)`, with its helpers `numeric_half_rounded` and
  `numeric_truncated_divide`.
- `pg_size_bytes`. It scans white space, a sign, digits, a fraction and an
  exponent. It hands the number to `numeric_in`, then looks up a unit
  without regard to case and multiplies by the unit's size. Last,
  `numeric_int8` converts the result to bigint.

Modules, one per file:

- `CInt` (cint.dfy): `int64`/`uint64`, C's truncating `/`, powers of two and
  ten, `half_rounded`.
- `Wrappers` (wrappers.dfy): `Option`.
- `Chars` (chars.dfy): `isspace`, `isdigit`, ASCII case folding, decimal
  text, and slices of strings.
- `SizeUnits` (units.dfy): the two tables and the shift arithmetic between
  units.
- `Numeric` (numeric.dfy): finite numeric values as `coef / 10^scale`, plus
  the behaviour of the numeric operations the size functions call.
- `SizePretty` (pretty.dfy): both formatters. Each is a method with the C
  loop, proved equal to a specification function.
- `SizeBytes` (bytes.dfy): the parser. It is a method with the C scanning
  loops, proved equal to a specification function `SizeValue`.
- `SizeRoundTrip` (roundtrip.dfy): what the parser makes of the formatter's
  output.

Main results:

- Sizes below 10240 bytes in absolute value print exactly, in bytes.
- The bigint formatter prints positive and negative sizes alike.
- For the bigint formatter, every printed number is within one unit of the
  size.
- Each error of the parser has a lemma that says when it is raised:
  - "invalid size" for want of digits: `InvalidSizeIff`, both ways.
  - The invalid numeric from white space after an `e`: `InvalidNumericIff`,
    both ways, with the text numeric_in is given.
  - "Invalid size unit" from an `e` that is not an exponent: `UnitStartsAtE`.
  - "Invalid size unit" for any other unknown unit: `LookupUnitIff`, through
    `WithUnit` and `SizeOfLiteralWithUnit`.
  - Out of range: `SizeValue` and `Int8`.
- Every literal numeric_in accepts, with white space around it and
  optionally a unit, is read as its value: `SizeOfLiteral` and
  `SizeOfLiteralWithUnit`.
- `pg_size_bytes(pg_size_pretty(x)) = x` whenever |x| < 10240.
- For every bigint x, `pg_size_bytes(pg_size_pretty(x))` is within one
  printed unit of x. The only exceptions are sizes that print as "8192 PB".
  That is 2^63 bytes, one more than the largest bigint, so it reads back
  out of range. The largest bigint is one such size.
- On whole numbers the numeric formatter agrees with the bigint one.

`numeric_in`, `numeric_out`, `numeric_mul`, `numeric_div_trunc` and
`numeric_int8` are defined in numeric.c, which is not part of this model.
Their behaviour on finite values is written out in the `Numeric` module:

- `numeric_in` reads the decimal syntax exactly.
- `numeric_out` prints positional notation with the display scale's digits.
- `numeric_div_trunc` truncates toward zero.
- `numeric_int8` rounds half away from zero, then checks the bigint range.

## Model

| member | source | states |
|---|---|---|
| CInt.HalfRounded | src/backend/utils/adt/dbsize.c:34-35 | x/2 rounded to the nearest integer: 2r is within one of x, an odd x rounds away from zero, the sign is kept, and only 0 gives 0 |
| CInt.HalfRoundedOdd | src/backend/utils/adt/dbsize.c:34-35 | half_rounded(-x) = -half_rounded(x), and its magnitude is (\|x\| + 1) / 2 |
| CInt.UAbs | src/backend/utils/adt/dbsize.c:578 | the uint64 absolute value `0 - (uint64) size` equals \|size\| for every int64, INT64_MIN included |
| CInt.Div | src/backend/utils/adt/dbsize.c:603 | C's `/`: the remainder is smaller than the divisor and has the sign of the dividend |
| CInt.DivMagnitude | src/backend/utils/adt/dbsize.c:598-603 | truncating division floors the magnitude, keeps the sign and is odd in the dividend |
| CInt.DivDiv | src/backend/utils/adt/dbsize.c:603 | dividing twice with truncation is dividing once by the product |
| SizeUnits.StepBits | src/backend/utils/adt/dbsize.c:601-602 | the shift between consecutive units is 9 from bytes to kB and 10 after that |
| SizeUnits.TotalBitsTelescopes | src/backend/utils/adt/dbsize.c:49-57 | the shifts up to unit i add up to unitbits, less one when the unit is half rounded (10i - 1 for i > 0) |
| SizeUnits.UnitAt | src/backend/utils/adt/dbsize.c:49-57 | unit i is 2^(10i) bytes, is half rounded exactly when i > 0, and has limit 10240 or 20479 |
| SizeUnits.NamesDistinct | src/backend/utils/adt/dbsize.c:49-57 | no two unit names, nor a name and the alias, are equal up to case, and the alias points into the unit table |
| SizePretty.ChooseFrom | src/backend/utils/adt/dbsize.c:575-586 | the unit chosen from i on is the first one whose limit the scaled size is below, or PB |
| SizePretty.PrettyText | src/backend/utils/adt/dbsize.c:587-608 | the text is the number, a space and the unit name; the number times the unit is within one unit of the size, below 10240 in absolute value unless the unit is PB, and the size itself in bytes |
| SizePretty.PgSizePretty | src/backend/utils/adt/dbsize.c:569-608 | the method prints exactly PrettyText(size): the chosen unit, the half rounding and `INT64_FORMAT " %s"` |
| SizePretty.ScaleToUnit | src/backend/utils/adt/dbsize.c:575-604 | the loop stops at the chosen unit, with the size divided down to it; after one division the size fits in 62 bits |
| SizePretty.DivisionStep | src/backend/utils/adt/dbsize.c:587-588 | one division by 2^bits of a size of at most 2^63 in magnitude gives the next scaled size, of at most 2^62 in magnitude, so the `+1` of half_rounded cannot overflow |
| SizePretty.ScaledIsOneDivision | src/backend/utils/adt/dbsize.c:598-603 | the step-by-step divisions amount to one truncating division by 2^TotalBits |
| SizePretty.FitsIff | src/backend/utils/adt/dbsize.c:584 | the break test at unit i holds exactly when the unit is PB or \|size\| < limit * 2^TotalBits(i) |
| SizePretty.ChosenUnitIff | src/backend/utils/adt/dbsize.c:575-586 | unit u is chosen exactly when the size reaches every smaller unit's threshold and u is PB or the size lies below u's threshold |
| SizePretty.SmallSizesExact | src/backend/utils/adt/dbsize.c:50 | bytes is chosen exactly when \|x\| < 10240, and then the text is "x bytes" |
| SizePretty.ChooseFromOfNegation | src/backend/utils/adt/dbsize.c:578-584 | x and -x stop at the same unit |
| SizePretty.PrettySignSymmetric | src/backend/utils/adt/dbsize.c:578-603 | -x prints in the same unit as x, with the negated number: the text is that number and the same unit name |
| SizePretty.PrettyNumberBelowLimit | src/backend/utils/adt/dbsize.c:51-55 | the number printed in any unit below PB is below 10240 in absolute value |
| SizePretty.RoundedUnitError | src/backend/utils/adt/dbsize.c:587-588 | in a half-rounded unit the rounded number times the unit is within one unit of the size |
| SizePretty.PrettyNumberApproximates | src/backend/utils/adt/dbsize.c:584-603 | the printed number times its unit is within one unit of the size, and exact in bytes |
| Numeric.AbsLessTrunc | src/backend/utils/adt/dbsize.c:683-685 | \|d\| < limit exactly when the integer part of d is below the limit in absolute value |
| Numeric.TruncatedDivide | src/backend/utils/adt/dbsize.c:659-669 | numeric_truncated_divide is an integer, the truncating division of the integer part of d |
| Numeric.HalfRoundedNumeric | src/backend/utils/adt/dbsize.c:637-657 | numeric_half_rounded gives d/2 rounded to the nearest integer, halves away from zero, and equals half_rounded on integers |
| Numeric.DecimalTextOfInteger | src/backend/utils/adt/dbsize.c:610-616 | numeric_to_cstring prints a whole number as `%lld` would |
| Numeric.DecimalText | src/backend/utils/adt/dbsize.c:610-616 | numeric_in reads the printed text back as the same value |
| Numeric.PositionalRead | src/backend/utils/adt/dbsize.c:610-616 | the sign and the positional digits of a value read back as that value |
| Numeric.NumericIn | src/backend/utils/adt/dbsize.c:789-792 | when numeric_in accepts a text, the text is a valid literal that spells it, and the value is that literal's |
| SizePretty.NumChooseFrom | src/backend/utils/adt/dbsize.c:678-692 | the numeric unit chosen from i on is the first one whose limit \|size\| is below, or PB |
| SizePretty.PgSizePrettyNumeric | src/backend/utils/adt/dbsize.c:671-707 | the method prints exactly NumPrettyText(size) |
| SizePretty.NumPrettyText | src/backend/utils/adt/dbsize.c:671-707 | the numeric formatter picks the bigint unit of the integer part; in bytes it prints numeric_out of the size and " bytes", in any other unit the bigint text of the integer part |
| SizePretty.NumScaledIsScaled | src/backend/utils/adt/dbsize.c:701-703 | after the first division the numeric size is the bigint scaled size of its integer part |
| SizePretty.NumFitsIff | src/backend/utils/adt/dbsize.c:683-685 | the numeric break test holds exactly when the bigint one does on the integer part |
| SizePretty.NumChooseFromIsChooseFrom | src/backend/utils/adt/dbsize.c:678-692 | the numeric unit search ends where the bigint one ends on the integer part |
| SizePretty.NumericMatchesBigint | src/backend/utils/adt/dbsize.c:671-707 | the numeric formatter picks the bigint unit of the integer part; in bytes it prints d itself, otherwise the bigint number |
| SizePretty.NumericOnIntegers | src/backend/utils/adt/dbsize.c:690 | on a whole number the numeric formatter prints the same text as the bigint one |
| Numeric.NumericInLiteral | src/backend/utils/adt/dbsize.c:789-792 | numeric_in reads a valid literal (sign, digits, point, fraction, exponent) as its value |
| Numeric.NumericInAt | src/backend/utils/adt/dbsize.c:789-792 | numeric_in on a text whose parts sit at known positions gives the value of those parts |
| Numeric.MakeDecimalValue | src/backend/utils/adt/dbsize.c:789-792 | the value numeric_in builds is sign * digits * 10^(exponent - fraction digits) |
| Numeric.DecimalLiteral | src/backend/utils/adt/dbsize.c:610-616 | numeric_out's text of d is a valid literal whose value is d |
| Numeric.RoundToInteger | src/backend/utils/adt/dbsize.c:858-859 | numeric_int8's rounding is the nearest integer, halves away from zero, never of the opposite sign to d, and exact on whole numbers |
| SizeBytes.PgSizeBytes | src/backend/utils/adt/dbsize.c:712-862 | the method returns exactly SizeValue(arg), errors included |
| SizeBytes.ScanMantissa | src/backend/utils/adt/dbsize.c:732-758 | parts (1)-(3) end where the sign, digits, point and fraction end, and have_digits is exactly HaveDigits |
| SizeBytes.DigitRun | src/backend/utils/adt/dbsize.c:739-745 | the do-while digit loop stops at the first non-digit |
| SizeBytes.StrtolEnd | src/backend/utils/adt/dbsize.c:776-779 | strtol moves exactly when white space, a sign and a digit follow, and then stops after the digit run |
| SizeBytes.ExponentEnd | src/backend/utils/adt/dbsize.c:766-780 | the exponent is taken exactly when an e or E is followed by an integer strtol reads, and then the number ends where strtol stops |
| SizeBytes.ParseUnit | src/backend/utils/adt/dbsize.c:796-856 | the unit part returns exactly WithUnit: the number alone, the number times 2^unitbits, or an invalid-unit error |
| SizeBytes.UnitIndex | src/backend/utils/adt/dbsize.c:816-834 | the two table searches find unit k exactly when LookupUnit gives k, and run off the end exactly when it gives none |
| SizeBytes.FindUnit | src/backend/utils/adt/dbsize.c:816-821 | the unit-name search returns the first name equal up to case, or none when no name matches |
| SizeBytes.FindAlias | src/backend/utils/adt/dbsize.c:826-833 | the alias search returns the unit of an alias equal up to case, or none when no alias matches |
| SizeBytes.LookupUnit | src/backend/utils/adt/dbsize.c:816-842 | no unit is found exactly when neither a name nor an alias matches |
| SizeBytes.LookupUnitIff | src/backend/utils/adt/dbsize.c:816-834 | u names unit k exactly when u equals k's name up to case, or k is bytes and u is "B" up to case |
| SizeBytes.LookupName | src/backend/utils/adt/dbsize.c:816-821 | every unit is found under its own name |
| SizeBytes.UnitSpelling | src/backend/utils/adt/dbsize.c:49-70 | every accepted unit spelling starts with a letter that ends a number, and neither starts nor ends with white space |
| SizeBytes.TrimEnd | src/backend/utils/adt/dbsize.c:807-813 | the trailing-space trim stops after the last non-space character, and only spaces follow it |
| SizeBytes.TrimAt | src/backend/utils/adt/dbsize.c:807-813 | the trim ends at the last non-space character |
| SizeBytes.HaveDigitsIff | src/backend/utils/adt/dbsize.c:738-758 | have_digits holds exactly when a digit, or a point and a digit, follow the sign |
| SizeBytes.SizeNumeric | src/backend/utils/adt/dbsize.c:726-856 | "invalid size" is raised exactly when no digit follows; no step before numeric_int8 is out of range; an invalid numeric is a text numeric_in refuses, and an invalid unit is a unit that is found nowhere |
| SizeBytes.WithUnit | src/backend/utils/adt/dbsize.c:796-856 | the unit step fails only with a unit that is not found, keeps the scale, and otherwise multiplies by 2^unitbits of some unit |
| SizeBytes.Multiply | src/backend/utils/adt/dbsize.c:844-855 | the multiplication keeps the scale and multiplies the coefficient by any multiplier of at least 1, as skipping numeric_mul for 1 does |
| SizeBytes.Int8 | src/backend/utils/adt/dbsize.c:858-859 | numeric_int8 succeeds exactly when the rounded value is a bigint, returns that value, and otherwise reports out of range |
| SizeBytes.SizeValue | src/backend/utils/adt/dbsize.c:712-862 | the errors before numeric_int8 pass through; otherwise the result is the rounded value when it is a bigint, and out of range when not |
| SizeBytes.InvalidNumericIff | src/backend/utils/adt/dbsize.c:766-792 | numeric_in refuses the number exactly when white space follows an e that strtol took as an exponent, and the text it refuses is the delimited number |
| SizeBytes.SpaceInExponent | src/backend/utils/adt/dbsize.c:766-792 | "1e 3" is an invalid numeric, "1e 3" |
| SizeBytes.UnitStartsAtE | src/backend/utils/adt/dbsize.c:766-780 | an e or E after the digits with no integer after it starts the unit, and the result is that unit's error |
| SizeBytes.DelimitedLiteral | src/backend/utils/adt/dbsize.c:732-787 | unless white space follows an e taken as an exponent, the delimited number is a valid literal |
| SizeBytes.LiteralHasNoSpace | src/backend/utils/adt/dbsize.c:728-780 | no valid literal holds white space |
| SizeBytes.ScanLiteral | src/backend/utils/adt/dbsize.c:726-780 | after white space, a literal followed by the end or by a character that ends a number is delimited exactly: the sign, digits and exponent are all taken, and nothing more |
| SizeBytes.SizeOfLiteral | src/backend/utils/adt/dbsize.c:726-802 | a literal with white space around it reads as its value |
| SizeBytes.SizeOfLiteralWithUnit | src/backend/utils/adt/dbsize.c:726-856 | a literal with a unit, with white space around, reads as its value times the unit, or gives the unit error |
| SizeBytes.InvalidSizeIff | src/backend/utils/adt/dbsize.c:760-764 | "invalid size" for the text is raised exactly when no digit, nor a point and a digit, follows the white space and the sign |
| SizeBytes.NoDigitsExamples | src/backend/utils/adt/dbsize.c:760-764 | "", "+", "." and "kB" are invalid sizes |
| SizeBytes.ExponentTaken | src/backend/utils/adt/dbsize.c:766-780 | in "1e3" the exponent is part of the number, which is 1000 |
| SizeBytes.UnitAfterE | src/backend/utils/adt/dbsize.c:772-780 | in "1e" and "1eB" no integer follows the e, so the e starts the unit, which is invalid |
| SizeBytes.NoUnitStartsWithE | src/backend/utils/adt/dbsize.c:49-70 | no unit or alias starts with e or E |
| SizeBytes.WithoutUnit | src/backend/utils/adt/dbsize.c:796-802 | only white space after the number: the number is the size |
| SizeBytes.WithUnitAt | src/backend/utils/adt/dbsize.c:796-855 | a unit between white space is looked up; unknown is an error, known multiplies by 2^unitbits |
| SizeBytes.SizeOfBareInteger | src/backend/utils/adt/dbsize.c:726-802 | an integer with white space around it is read as itself |
| SizeBytes.SizeOfIntegerWithUnit | src/backend/utils/adt/dbsize.c:726-855 | an integer and a unit, with white space around, read as the integer times the unit, or the unit error |
| SizeRoundTrip.ReadPrinted | src/backend/utils/adt/dbsize.c:589 | the parser reads "n unit" as n times 2^unitbits |
| SizeRoundTrip.PrettyTextRead | src/backend/utils/adt/dbsize.c:589 | the parser reads a printed size as its number times its unit |
| SizeRoundTrip.PrettyTextBytes | src/backend/utils/adt/dbsize.c:858-859 | a printed size reads back as number times unit when that is a bigint, and as out of range otherwise |
| SizeRoundTrip.SmallRoundTrip | src/backend/utils/adt/dbsize.c:727-729 | pg_size_bytes(pg_size_pretty(x)) = x for \|x\| < 10240 |
| SizeRoundTrip.RoundTripWithinUnit | src/backend/utils/adt/dbsize.c:584-603 | a bigint reads back within one printed unit of itself, and fails exactly when it printed as 8192 PB |
| SizeRoundTrip.ReadBackFacts | src/backend/utils/adt/dbsize.c:584-603 | the value a printed bigint stands for is within one unit of it, at most 2^63, and 2^63 only as 8192 PB |
| SizeRoundTrip.ReadBackRange | src/backend/utils/adt/dbsize.c:49-57 | a number below 10240, in a unit below PB, close to a bigint, stands for a bigint; in PB only 8192 does not |
| SizeRoundTrip.PrintedPetabytes | src/backend/utils/adt/dbsize.c:55 | a number printed in PB lies between -8192 and 8192, and stands for a bigint unless it is 8192 |
| SizeRoundTrip.ThresholdBelowPetabytes | src/backend/utils/adt/dbsize.c:49-57 | every unit below PB stops below 20479 * 2^39 bytes |
| SizeRoundTrip.LargestInPetabytes | src/backend/utils/adt/dbsize.c:584 | the largest bigint prints in PB |
| SizeRoundTrip.LargestScaled | src/backend/utils/adt/dbsize.c:603 | on the way to PB the largest bigint is divided down to 16383 |
| SizeRoundTrip.PrintedAsLimit | src/backend/utils/adt/dbsize.c:587-589 | 16383 in PB half-rounds to "8192 PB", which reads back out of range |
| SizeRoundTrip.LargestSizeNotReadBack | src/backend/utils/adt/dbsize.c:858-859 | pg_size_pretty(9223372036854775807) is "8192 PB", and pg_size_bytes of it is out of range |
| SizeRoundTrip.NumericRoundTrip | src/backend/utils/adt/dbsize.c:690 | on whole numbers the numeric formatter's text reads back as the bigint formatter's does |

## Left out

- The database, tablespace and relation size walkers and their SQL wrappers (dbsize.c lines 73-563). They are file-system and catalog I/O.
- `pg_relation_filenode`, `pg_filenode_relation` and `pg_relation_filepath` (dbsize.c lines 879-1025). They are syscache and relation-mapper lookups.
- src/backend/commands/alter.c. It only drives catalog updates through calls that are not part of this model.
- src/include/catalog/pg_auth_members.h. It declares a catalog row and has no behaviour to model.
- Numeric.RoundToInteger: it models numeric_int8's rounding as half away from zero. numeric.c is not part of this model, so that rule is an assumption about it.
- The internals of numeric.c are not part of this model. The numeric operations are described by their effect on finite values.
- SizePretty.PgSizePrettyNumeric: NaN and the infinities are left out, and the model only takes finite values. In the source they are never less than a limit for `numeric_is_less`, so the loop reaches PB. It prints "NaN PB", "Infinity PB" or "-Infinity PB". numeric.c is not part of this model.
- NaN and the infinities are left out of `pg_size_bytes`. numeric_in accepts them, but the size scanner only passes on texts that start with a sign, a digit or a point.
- The numeric range and scale limits of numeric_in are left out, along with its hexadecimal, octal, binary and underscore forms. The scanner never passes those forms on, because they are not digit runs.
- `numeric_in` rejects white space after the exponent marker, while `strtol` accepts it. In the model, as in the source, "1e 3" is an error from numeric_in.
- `pg_strcasecmp` folds only ASCII letters here. Its locale-dependent folding of high-bit characters is left out.
- Text values hold no zero byte, so the end of the string plays the part of the `'\0'` terminator. The terminators the scanner writes into its copy are modelled as slices.
- Memory allocation, errors as non-local exits (they become `Err` values), and interrupts are left out.
- The C `for` loops with `break` are written as `while` loops on the negated break condition, with the printing after the loop.
- The round trip of fractional numeric sizes, such as "1.5 kB", is left out. Only whole-number output is read back.
