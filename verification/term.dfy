/** Parsing of a loan term given either in months or in years (the private
    `Mortgage.__months` routine). */
module Term {
  import opened Wrappers
  import opened Money

  const MonthsInYear := 12

  /** `InputError`: the exception raised for a malformed term. */
  datatype InputError = InputError(msg: string)

  const BothGiven := InputError("years cannot be specified together with months")
  const NeitherGiven := InputError("months or years must be specified")

  /** True when r is n / d truncated towards zero. */
  ghost predicate TruncatesTo(n: int, d: Positive, r: int)
  {
    && (n >= 0 ==> 0 <= r && d * r <= n < d * r + d)
    && (n < 0 ==> r <= 0 && d * r - d < n <= d * r)
  }

  /** Python's `int(x)`: truncation towards zero. */
  function Truncate(x: Ratio): (r: int)
    ensures TruncatesTo(x.num, x.den, r)
  {
    if x.num >= 0 then x.num / x.den
    else -((-x.num) / x.den)
  }

  /** The term in whole months: exactly one of `months` and `years` must be
      given (a `Some`). A number of months is truncated; a number of years is
      multiplied by twelve and then truncated. */
  function Months(months: Option<Ratio>, years: Option<Ratio>): (r: Result<int, InputError>)
    ensures months.Some? && years.Some? <==> r == Failure(BothGiven)
    ensures months.None? && years.None? <==> r == Failure(NeitherGiven)
    ensures months.Some? && years.None? ==>
      r.Success? && TruncatesTo(months.value.num, months.value.den, r.value)
    ensures months.None? && years.Some? ==>
      r.Success? && TruncatesTo(MonthsInYear * years.value.num, years.value.den, r.value)
  {
    if months.Some? then
      if years.Some? then Failure(BothGiven)
      else Success(Truncate(months.value))
    else if years.Some? then
      Success(Truncate(Ratio(MonthsInYear * years.value.num, years.value.den)))
    else
      Failure(NeitherGiven)
  }

  /** Giving the term as twelve times y months, or as y years, yields the same
      number of months; for a whole number of years it is exactly 12 * y. */
  lemma YearsAgreeWithMonths(y: Ratio)
    ensures Months(Some(Ratio(MonthsInYear * y.num, y.den)), None)
         == Months(None, Some(y))
    ensures y.den == 1 ==> Months(None, Some(y)) == Success(MonthsInYear * y.num)
  {
  }
}
