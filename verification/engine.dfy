/** The `Mortgage` object of mortgage.py restricted to its exact-decimal part:
    construction (term parsing and rounding the amount up to the cent), the
    cent-rounded monthly payment, its yearly and whole-term multiples, and the
    amortization schedule started from the loan. */
module Engine {
  import opened Wrappers
  import opened Money
  import opened Term
  import opened Amortization

  /** A loan as `Mortgage.__init__` stores it: the annual rate, the term in
      whole months, and the amount in cents, already rounded up. */
  datatype Mortgage = Mortgage(interest: Ratio, months: int, amount: int)

  /** The amount used when the caller gives none. */
  const DefaultAmount := Ratio(100000, 1)

  /** `Mortgage(interest, months, amount, years)`: fails with the term's
      `InputError` unless exactly one of months and years is given; otherwise
      stores the parsed term and the amount rounded up to whole cents. */
  function NewMortgage(interest: Ratio, months: Option<Ratio>, amount: Ratio, years: Option<Ratio>)
    : (r: Result<Mortgage, InputError>)
    ensures r.Failure? <==> (months.Some? <==> years.Some?)
    ensures r.Failure? ==> r.error == (if months.Some? then BothGiven else NeitherGiven)
    ensures r.Success? ==>
      && r.value.interest == interest
      && Months(months, years) == Success(r.value.months)
      && CentsPerDollar * amount.num <= amount.den * r.value.amount
      && amount.den * r.value.amount < CentsPerDollar * amount.num + amount.den
  {
    match Months(months, years)
    case Failure(e) => Failure(e)
    case Success(n) => Success(Mortgage(interest, n, Dollar(amount, Ceiling)))
  }

  /** `monthly_payment`: the annuity payment computed in floating point (given
      here as preAmount) rounded up to whole cents, so it is never below the
      exact annuity payment and less than a cent above it. */
  function MonthlyPayment(preAmount: Ratio): (p: int)
    ensures CentsPerDollar * preAmount.num <= preAmount.den * p
    ensures preAmount.den * p < CentsPerDollar * preAmount.num + preAmount.den
  {
    Dollar(preAmount, Ceiling)
  }

  /** n payments of p added one at a time. */
  function Repeated(p: int, n: nat): int
  {
    if n == 0 then 0 else Repeated(p, n - 1) + p
  }

  lemma {:induction false} RepeatedIsProduct(p: int, n: nat)
    ensures Repeated(p, n) == p * n
  {
    if n > 0 {
      RepeatedIsProduct(p, n - 1);
      assert p * n == p * (n - 1) + p;
    }
  }

  /** `annual_payment`: twelve monthly payments. */
  function AnnualPayment(payment: int): (r: int)
    ensures r == Repeated(payment, MonthsInYear)
  {
    RepeatedIsProduct(payment, MonthsInYear);
    payment * MonthsInYear
  }

  /** `total_payout`: one payment for every month of the term (a term below
      zero, which nothing rejects, gives a negative payout). */
  function TotalPayout(m: Mortgage, payment: int): (r: int)
    ensures 0 <= m.months ==> r == Repeated(payment, m.months)
    ensures m.months < 0 ==> r == -Repeated(payment, -m.months)
  {
    RepeatedIsProduct(payment, if 0 <= m.months then m.months else -m.months);
    payment * m.months
  }

  /** The generator's state before the first month: the amount rounded up to
      cents once more, and the annual rate quantized (half-even) to millionths. */
  function ScheduleStart(m: Mortgage, payment: int): (s: Ledger)
    ensures s.balance == m.amount && s.payment == payment
    ensures -(m.interest.den as int) <= 2 * (m.interest.den * s.rate - MicrosPerUnit * m.interest.num)
    ensures 2 * (m.interest.den * s.rate - MicrosPerUnit * m.interest.num) <= m.interest.den
    ensures s.rate == RateMicros(m.interest)
  {
    QuantizeExact(m.amount, CentsPerDollar, Ceiling);
    Ledger(Dollar(Cents(m.amount), Ceiling), RateMicros(m.interest), payment)
  }

  /** `monthly_payment_schedule`, consumed to the end. Defined when the
      generator terminates (see `PaysOff`); otherwise the source loops forever. */
  function MonthlyPaymentSchedule(m: Mortgage, payment: int): (r: seq<Installment>)
    requires PaysOff(ScheduleStart(m, payment))
    ensures IsScheduleOf(r, ScheduleStart(m, payment))
    ensures SumPrincipal(r) == m.amount
    ensures forall k :: 0 <= k < |r| ==> r[k].principal + r[k].interest <= payment
  {
    ScheduleMeetsDescription(ScheduleStart(m, payment));
    Schedule(ScheduleStart(m, payment))
  }

  lemma MulLeft(a: int, b: int, p: int)
    requires a <= b && 0 <= p
    ensures a * p <= b * p
  {
  }

  /** If the schedule ends within the term, paying a non-negative level
      payment for the whole term covers the amount and all the interest the
      schedule charges; at a non-negative rate it covers the amount alone. */
  lemma PayoutCoversSchedule(m: Mortgage, payment: int)
    requires PaysOff(ScheduleStart(m, payment)) && 0 <= payment
    requires |MonthlyPaymentSchedule(m, payment)| <= m.months
    ensures m.amount + SumInterest(MonthlyPaymentSchedule(m, payment)) <= TotalPayout(m, payment)
    ensures 0 <= m.interest.num ==> m.amount <= TotalPayout(m, payment)
  {
    var s := ScheduleStart(m, payment);
    var xs := MonthlyPaymentSchedule(m, payment);
    assert xs == Schedule(s);
    ScheduleCollects(s, 0, |xs|);
    assert xs[0..|xs|] == xs;
    MulLeft(|xs|, m.months, payment);
    if 0 <= m.interest.num {
      RateMicrosNonNegative(m.interest);
      if 0 <= m.amount {
        ScheduleDecreases(s);
        SumInterestNonNegative(xs);
      } else {
        MulLeft(0, m.months, payment);
      }
    }
  }

  /** Any twelve consecutive months of the schedule collect at most the annual
      payment, and exactly the annual payment when they end before the final
      month. */
  lemma AnnualPaymentCoversYear(m: Mortgage, payment: int, k: nat)
    requires PaysOff(ScheduleStart(m, payment))
    requires k + MonthsInYear <= |MonthlyPaymentSchedule(m, payment)|
    ensures Collected(MonthlyPaymentSchedule(m, payment)[k..k + MonthsInYear]) <= AnnualPayment(payment)
    ensures k + MonthsInYear < |MonthlyPaymentSchedule(m, payment)| ==>
      Collected(MonthlyPaymentSchedule(m, payment)[k..k + MonthsInYear]) == AnnualPayment(payment)
  {
    var s := ScheduleStart(m, payment);
    assert MonthlyPaymentSchedule(m, payment) == Schedule(s);
    ScheduleCollects(s, k, k + MonthsInYear);
    assert (k + MonthsInYear - k) * payment == AnnualPayment(payment);
  }
}
