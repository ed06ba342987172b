/** Exact decimal arithmetic as the mortgage engine uses it: values are exact
    rationals, and `dollar` quantizes them to whole cents under a rounding mode.
    The annual rate is quantized the same way to six decimal places. */
module Money {

  type Positive = n: int | n > 0 witness 1

  /** The exact value num / den. A Python `Decimal` is always of this form
      (with den a power of ten); a quotient such as balance * rate / 12 is too. */
  datatype Ratio = Ratio(num: int, den: Positive)

  /** The rounding modes of Python's `decimal` module that the engine uses. */
  datatype Rounding =
    | Ceiling   // ROUND_CEILING: towards positive infinity; `dollar`'s default
    | HalfUp    // ROUND_HALF_UP: to nearest, ties away from zero
    | HalfEven  // ROUND_HALF_EVEN: to nearest, ties to even; the context default

  /** Number of cents in one dollar: `DOLLAR_QUANTIZE` is 0.01. */
  const CentsPerDollar: Positive := 100

  /** Number of rate units in 1: the rate is quantized to 0.000001. */
  const MicrosPerUnit: Positive := 1_000_000

  /** An amount of whole cents as an exact decimal. */
  function Cents(c: int): Ratio
  {
    Ratio(c, CentsPerDollar)
  }

  /** True when `r` is a correct rounding of n / d under `mode`. Each mode
      determines exactly one integer (see `RoundingIsUnique`). */
  ghost predicate IsRounding(n: int, d: Positive, mode: Rounding, r: int)
  {
    match mode
    case Ceiling =>
      // not below n / d, and less than one unit above it
      n <= d * r < n + d
    case HalfUp =>
      // within half a unit; an exact tie goes away from zero
      && -(d as int) <= 2 * (d * r - n) <= d
      && (2 * (d * r - n) == d ==> n > 0)
      && (2 * (n - d * r) == d ==> n < 0)
    case HalfEven =>
      // within half a unit; an exact tie goes to the even neighbour
      && -(d as int) <= 2 * (d * r - n) <= d
      && (2 * (d * r - n) == d || 2 * (n - d * r) == d ==> r % 2 == 0)
  }

  /** Integer division rounded under `mode`. */
  function RoundDiv(n: int, d: Positive, mode: Rounding): (r: int)
    ensures IsRounding(n, d, mode, r)
  {
    var q := n / d;
    var rem := n % d;
    assert n == d * q + rem && 0 <= rem < d;
    assert d * (q + 1) == d * q + d;
    match mode
    case Ceiling =>
      if rem == 0 then q else q + 1
    case HalfUp =>
      if n >= 0 then
        if 2 * rem < d then q else q + 1
      else
        if 2 * rem <= d then q else q + 1
    case HalfEven =>
      if 2 * rem < d then q
      else if 2 * rem > d then q + 1
      else if q % 2 == 0 then q else q + 1
  }

  /** Python's `x.quantize(Decimal(1) / unit, rounding=mode)`, as the integer
      count of 1/unit steps. */
  function Quantize(x: Ratio, unit: Positive, mode: Rounding): (r: int)
    ensures IsRounding(unit * x.num, x.den, mode, r)
  {
    RoundDiv(unit * x.num, x.den, mode)
  }

  /** `dollar(f, round)`: the value f rounded to two decimal places, in cents. */
  function Dollar(x: Ratio, mode: Rounding): (c: int)
    ensures mode == Ceiling ==>
      CentsPerDollar * x.num <= x.den * c < CentsPerDollar * x.num + x.den
    ensures mode == HalfUp ==>
      && -(x.den as int) <= 2 * (x.den * c - CentsPerDollar * x.num) <= x.den
      && (2 * (x.den * c - CentsPerDollar * x.num) == x.den ==> x.num > 0)
      && (2 * (CentsPerDollar * x.num - x.den * c) == x.den ==> x.num < 0)
  {
    Quantize(x, CentsPerDollar, mode)
  }

  /** The annual rate quantized to six decimal places, in millionths. The
      source passes no rounding mode, so the decimal context's default,
      round-half-even, applies. */
  function RateMicros(rate: Ratio): (m: int)
    ensures -(rate.den as int) <= 2 * (rate.den * m - MicrosPerUnit * rate.num) <= rate.den
    ensures 2 * (rate.den * m - MicrosPerUnit * rate.num) == rate.den ==> m % 2 == 0
    ensures 2 * (MicrosPerUnit * rate.num - rate.den * m) == rate.den ==> m % 2 == 0
  {
    Quantize(rate, MicrosPerUnit, HalfEven)
  }

  // ---------------------------------------------------------------------
  // Properties of rounding

  /** A non-negative rate quantizes to a non-negative number of millionths. */
  lemma {:induction false} RateMicrosNonNegative(rate: Ratio)
    requires 0 <= rate.num
    ensures 0 <= RateMicros(rate)
  {
    var m := RateMicros(rate);
    if m < 0 {
      MulMonotone(m, 0, rate.den);
    }
  }

  lemma {:induction false} MulMonotone(a: int, b: int, d: Positive)
    requires a < b
    ensures d * a + d <= d * b
    ensures b > a + 1 ==> d * a + 2 * d <= d * b
  {
    var k := b - a;
    assert d * b == d * a + d * k;
    assert d * k >= d by {
      MulAtLeastOne(k, d);
    }
    if k > 1 {
      assert d * k == d + d * (k - 1);
      MulAtLeastOne(k - 1, d);
    }
  }

  lemma MulAtLeastOne(k: int, d: Positive)
    requires k >= 1
    ensures d * k >= d
  {
  }

  /** Each rounding mode admits exactly one result. */
  lemma {:induction false} RoundingIsUnique(n: int, d: Positive, mode: Rounding, r1: int, r2: int)
    requires IsRounding(n, d, mode, r1) && IsRounding(n, d, mode, r2)
    ensures r1 == r2
  {
    if r1 < r2 {
      MulMonotone(r1, r2, d);
    } else if r2 < r1 {
      MulMonotone(r2, r1, d);
    }
  }

  /** A value that is already a whole number of units is returned unchanged,
      whatever the mode. */
  lemma {:induction false} QuantizeExact(k: int, unit: Positive, mode: Rounding)
    ensures Quantize(Ratio(k, unit), unit, mode) == k
  {
    var r := Quantize(Ratio(k, unit), unit, mode);
    RoundingIsUnique(unit * k, unit, mode, r, k);
  }

  /** `dollar` is idempotent: re-rounding a cent amount, in any mode, gives
      the same cents back. */
  lemma DollarIdempotent(x: Ratio, first: Rounding, second: Rounding)
    ensures Dollar(Cents(Dollar(x, first)), second) == Dollar(x, first)
  {
  }
}
