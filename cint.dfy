/** The C integer arithmetic that the size functions rely on: the 64-bit
    integer types, the truncating division of C, powers of two and ten, and
    the `half_rounded` macro. */
module CInt {

  newtype int64 = x: int | -0x8000_0000_0000_0000 <= x < 0x8000_0000_0000_0000
  newtype uint64 = x: int | 0 <= x < 0x1_0000_0000_0000_0000

  const INT64_MIN: int := -0x8000_0000_0000_0000

  function Abs(x: int): nat
  {
    if x < 0 then -x else x
  }

  /** `0 - (uint64) x` for a negative x, and `(uint64) x` otherwise: the
      conversion to uint64 and the subtraction both wrap modulo 2^64, and
      the result is the absolute value, INT64_MIN included. */
  function UAbs(x: int64): (r: uint64)
    ensures r as int == Abs(x as int)
  {
    var u := (x as int) % 0x1_0000_0000_0000_0000;
    if x < 0 then ((0 - u) % 0x1_0000_0000_0000_0000) as uint64 else u as uint64
  }

  function Pow2(n: nat): (r: nat)
    ensures r >= 1
  {
    if n == 0 then 1 else 2 * Pow2(n - 1)
  }

  function Pow10(n: nat): (r: nat)
    ensures r >= 1
  {
    if n == 0 then 1 else 10 * Pow10(n - 1)
  }

  lemma {:induction false} Pow2Add(m: nat, n: nat)
    ensures Pow2(m + n) == Pow2(m) * Pow2(n)
  {
    if m > 0 {
      Pow2Add(m - 1, n);
    }
  }

  lemma Pow2Le(m: nat, n: nat)
    requires m <= n
    ensures Pow2(m) <= Pow2(n)
  {
    Pow2Add(m, n - m);
    MulLe(1, Pow2(n - m), Pow2(m));
  }

  lemma {:induction false} Pow10Add(m: nat, n: nat)
    ensures Pow10(m + n) == Pow10(m) * Pow10(n)
  {
    if m > 0 {
      Pow10Add(m - 1, n);
    }
  }

  /** C's `/` on integers: the quotient truncated toward zero. The remainder
      `a - q * b` is smaller than the divisor and has the sign of the
      dividend. Every divisor in the size functions is positive. */
  function Div(a: int, b: int): (q: int)
    requires b > 0
    ensures -b < a - q * b < b
    ensures a >= 0 ==> 0 <= a - q * b
    ensures a <= 0 ==> a - q * b <= 0
  {
    if a >= 0 then a / b else -((-a) / b)
  }

  /** Truncating division keeps the sign and floors the magnitude; so it is
      odd in its dividend, unlike Euclidean or floored division. */
  lemma DivMagnitude(a: int, b: int)
    requires b > 0
    ensures Abs(Div(a, b)) == Abs(a) / b
    ensures Div(-a, b) == -Div(a, b)
    ensures a >= 0 ==> Div(a, b) >= 0
    ensures a <= 0 ==> Div(a, b) <= 0
  {
    DivMod(Abs(a), b);
    if a > 0 {
      assert Div(a, b) == Abs(a) / b;
      assert Div(-a, b) == -(Abs(a) / b);
    } else if a < 0 {
      assert Div(a, b) == -(Abs(a) / b);
      assert Div(-a, b) == Abs(a) / b;
    } else {
      DivUnique(0, b, 0, 0);
    }
  }

  lemma MulLeft(k: int, b: int)
    requires b > 0 && k * b > -b
    ensures k >= 0
  {
  }

  lemma MulLe(x: nat, y: nat, b: nat)
    requires x <= y
    ensures x * b <= y * b
  {
  }

  /** Euclidean division of naturals is determined by its defining equation. */
  lemma DivUnique(a: nat, b: nat, q: nat, r: nat)
    requires b > 0 && a == q * b + r && r < b
    ensures a / b == q
  {
    var q', r' := a / b, a % b;
    assert (q - q') * b == r' - r;
    MulLeft(q - q', b);
    assert (q' - q) * b == r - r';
    MulLeft(q' - q, b);
  }

  /** The quotient and remainder of naturals, and the remainder is its own
      remainder. */
  lemma DivMod(m: nat, p: nat)
    requires p > 0
    ensures 0 <= m / p && 0 <= m % p < p && m == (m / p) * p + m % p
    ensures (m % p) % p == m % p
  {
    DivUnique(m % p, p, 0, m % p);
  }

  lemma NestedQuotient(a: nat, b: nat, c: nat, p: nat, s: nat, q: nat, t: nat)
    requires a == p * b + s && s < b
    requires p == q * c + t && t < c
    ensures a == q * (b * c) + (t * b + s)
    ensures t * b + s < b * c
  {
    assert p * b == (q * c + t) * b == (q * c) * b + t * b;
    assert (q * c) * b == q * (b * c);
    MulLe(t, c - 1, b);
  }

  lemma FloorDivDiv(a: nat, b: nat, c: nat)
    requires b > 0 && c > 0
    ensures (a / b) / c == a / (b * c)
  {
    NestedQuotient(a, b, c, a / b, a % b, (a / b) / c, (a / b) % c);
    DivUnique(a, b * c, (a / b) / c, ((a / b) % c) * b + a % b);
  }

  /** Dividing twice with truncation is dividing once by the product: the
      formatter's step-by-step divisions add up to one division. */
  lemma DivDiv(a: int, b: int, c: int)
    requires b > 0 && c > 0
    ensures Div(Div(a, b), c) == Div(a, b * c)
  {
    if a >= 0 {
      FloorDivDiv(a, b, c);
    } else {
      FloorDivDiv(-a, b, c);
    }
  }

  /** Dividing by at least two at least halves. */
  lemma QuotientAtMostHalf(a: nat, b: nat)
    requires b >= 2
    ensures 2 * (a / b) <= a
  {
    assert a == (a / b) * b + a % b;
    MulLe(2, b, a / b);
  }

  /** For positive m: the floored quotient a / m is below a bound exactly
      when a is below bound * m. */
  lemma DivLessIff(a: nat, m: nat, bound: nat)
    requires m > 0
    ensures a / m < bound <==> a < bound * m
  {
    assert a == (a / m) * m + a % m;
    if a / m < bound {
      assert (a / m) * m <= (bound - 1) * m;
    } else {
      assert (a / m) * m >= bound * m;
    }
  }

  /** `half_rounded(x)`, that is `(x + (x < 0 ? -1 : 1)) / 2` in C: x / 2
      rounded to the nearest integer with halves rounded away from zero. */
  function HalfRounded(x: int): (r: int)
    ensures x - 1 <= 2 * r <= x + 1
    ensures x % 2 == 1 ==> Abs(2 * r) == Abs(x) + 1
    ensures r == 0 <==> x == 0
    ensures r < 0 <==> x < 0
  {
    Div(x + (if x < 0 then -1 else 1), 2)
  }

  /** half_rounded is odd: negating its argument negates its result. */
  lemma {:induction false} HalfRoundedOdd(x: int)
    ensures HalfRounded(-x) == -HalfRounded(x)
    ensures Abs(HalfRounded(x)) == (Abs(x) + 1) / 2
  {
  }
}
