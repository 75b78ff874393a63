/** The unit tables shared by the formatter and the parser
    (`size_pretty_units` and `size_bytes_aliases`). */
module SizeUnits {
  import opened Chars

  /** One row of `size_pretty_units`: its name, the limit below which a
      value (before half rounding) is printed in this unit, whether the unit
      is half rounded, and the number of bits of 1 unit in bytes. */
  datatype Unit = Unit(name: string, limit: nat, round: bool, unitbits: nat)

  /** The table without its NULL terminator; an index equal to |Units|
      plays the part of the terminator. */
  const Units: seq<Unit> := [
    Unit("bytes", 10 * 1024, false, 0),
    Unit("kB", 20 * 1024 - 1, true, 10),
    Unit("MB", 20 * 1024 - 1, true, 20),
    Unit("GB", 20 * 1024 - 1, true, 30),
    Unit("TB", 20 * 1024 - 1, true, 40),
    Unit("PB", 20 * 1024 - 1, true, 50)
  ]

  /** One row of `size_bytes_aliases`: another spelling of a unit. */
  datatype Alias = Alias(alias: string, unitIndex: nat)

  const Aliases: seq<Alias> := [Alias("B", 0)]

  /** `(b == true)` used as an integer in C. */
  function B2I(b: bool): nat
  {
    if b then 1 else 0
  }

  /** The shift applied when the formatter moves from unit i to unit i + 1:
      `next.unitbits - unit.unitbits - (next.round == true) + (unit.round ==
      true)`. With this table it is 9 from bytes to kB (kB is half rounded,
      so one bit is kept for the rounding) and 10 for every later step. */
  function StepBits(i: nat): (bits: nat)
    requires i + 1 < |Units|
    ensures bits == if i == 0 then 9 else 10
  {
    Units[i + 1].unitbits - Units[i].unitbits - B2I(Units[i + 1].round) + B2I(Units[i].round)
  }

  /** The sum of the shifts on the way to unit i. */
  function TotalBits(i: nat): nat
    requires i < |Units|
  {
    if i == 0 then 0 else TotalBits(i - 1) + StepBits(i - 1)
  }

  /** The shifts telescope: on reaching unit i the size has been divided by
      2^unitbits, or by half that when the unit is half rounded, so that the
      final half rounding completes the conversion. */
  lemma {:induction false} TotalBitsTelescopes(i: nat)
    requires i < |Units|
    ensures TotalBits(i) == Units[i].unitbits - B2I(Units[i].round)
    ensures i > 0 ==> TotalBits(i) == 10 * i - 1
  {
    if i > 0 {
      TotalBitsTelescopes(i - 1);
    }
  }

  /** Unit i is 2^(10 i) bytes and is half rounded unless it is bytes. */
  lemma UnitAt(i: nat)
    requires i < |Units|
    ensures Units[i].unitbits == 10 * i
    ensures Units[i].round <==> i > 0
    ensures Units[i].limit == if i == 0 then 10240 else 20479
  {
  }

  /** The names are told apart by the case-insensitive lookup: no two
      are equal up to case, the alias differs from every name, and the alias
      B stands for a unit of the table (bytes). */
  lemma NamesDistinct()
    ensures forall a :: 0 <= a < |Aliases| ==> Aliases[a].unitIndex < |Units|
    ensures forall i, j :: 0 <= i < j < |Units| ==> !EqualsIgnoreCase(Units[i].name, Units[j].name)
    ensures forall i, a :: 0 <= i < |Units| && 0 <= a < |Aliases| ==> !EqualsIgnoreCase(Units[i].name, Aliases[a].alias)
  {
    forall i, j | 0 <= i < j < |Units|
      ensures !EqualsIgnoreCase(Units[i].name, Units[j].name)
    {
      if |Units[i].name| == |Units[j].name| {
        assert ToLower(Units[i].name[0]) != ToLower(Units[j].name[0]);
      }
    }
  }
}
