/** Worked examples: a 6% loan of 100000.00 over 360 months, a 6% loan of
    1200.00 over 12 months, and the two malformed terms. */
module Scenarios {
  import opened Wrappers
  import opened Money
  import opened Term
  import opened Amortization
  import opened Engine

  const SixPercent := Ratio(6, 100)

  /** Both forms of a malformed term are rejected. */
  lemma MalformedTermsRejected()
    ensures NewMortgage(SixPercent, Some(Ratio(12, 1)), DefaultAmount, Some(Ratio(1, 1))) == Failure(BothGiven)
    ensures NewMortgage(SixPercent, None, DefaultAmount, None) == Failure(NeitherGiven)
  {
  }

  /** 6% over 360 months on 100000.00: the payment 599.5505... rounds up to
      599.56, the annual payment is 7194.72, and the first month charges
      500.00 interest and retires 99.56 of principal. */
  lemma ThirtyYearLoan()
    ensures NewMortgage(SixPercent, Some(Ratio(360, 1)), DefaultAmount, None)
         == Success(Mortgage(SixPercent, 360, 100_000_00))
    ensures MonthlyPayment(Ratio(5995505251527582, 10_000_000_000_000)) == 599_56
    ensures AnnualPayment(599_56) == 7194_72
    ensures Step(ScheduleStart(Mortgage(SixPercent, 360, 100_000_00), 599_56)).paid
         == Installment(99_56, 500_00)
  {
  }

  /** 6% over 12 months on 1200.00 with the payment 103.28: the schedule
      ends after exactly twelve months. */
  lemma OneYearLoan()
    ensures PaysOff(ScheduleStart(Mortgage(SixPercent, 12, 1200_00), 103_28))
    ensures |MonthlyPaymentSchedule(Mortgage(SixPercent, 12, 1200_00), 103_28)| == 12
  {
    assert ScheduleStart(Mortgage(SixPercent, 12, 1200_00), 103_28) == Ledger(1200_00, 60000, 103_28);
    TwelveMonths(60000, 103_28);
    ScheduleHasPasses(Ledger(1200_00, 60000, 103_28));
  }

  /** The months of `OneYearLoan`, worked backwards from the final one. The
      rate and payment are parameters so that the solver takes each month's
      interest from `InterestIsNearest` instead of evaluating the schedule. */
  lemma TwelveMonths(r: int, p: int)
    requires r == 60000 && p == 103_28
    ensures PaysOff(Ledger(120000, r, p)) && Passes(Ledger(120000, r, p)) == 12
  {
    InterestIsNearest(10273, r, 51);
    assert Step(Ledger(10273, r, p)) == Final(Installment(10273, 51));
    InterestIsNearest(20499, r, 102);
    OneMonth(Ledger(20499, r, p), Installment(10226, 102));
    InterestIsNearest(30674, r, 153);
    OneMonth(Ledger(30674, r, p), Installment(10175, 153));
    InterestIsNearest(40798, r, 204);
    OneMonth(Ledger(40798, r, p), Installment(10124, 204));
    InterestIsNearest(50872, r, 254);
    OneMonth(Ledger(50872, r, p), Installment(10074, 254));
    InterestIsNearest(60896, r, 304);
    OneMonth(Ledger(60896, r, p), Installment(10024, 304));
    InterestIsNearest(70870, r, 354);
    OneMonth(Ledger(70870, r, p), Installment(9974, 354));
    InterestIsNearest(80794, r, 404);
    OneMonth(Ledger(80794, r, p), Installment(9924, 404));
    InterestIsNearest(90669, r, 453);
    OneMonth(Ledger(90669, r, p), Installment(9875, 453));
    InterestIsNearest(100495, r, 502);
    OneMonth(Ledger(100495, r, p), Installment(9826, 502));
    InterestIsNearest(110272, r, 551);
    OneMonth(Ledger(110272, r, p), Installment(9777, 551));
    InterestIsNearest(120000, r, 600);
    OneMonth(Ledger(120000, r, p), Installment(9728, 600));
  }

  /** A month that is not the last adds one pass through the loop. */
  lemma OneMonth(s: Ledger, x: Installment)
    requires Step(s) == Continue(x, s.(balance := s.balance - x.principal))
    requires PaysOff(s.(balance := s.balance - x.principal)) && 0 < x.principal && 0 <= s.rate
    ensures PaysOff(s) && Passes(s) == 1 + Passes(s.(balance := s.balance - x.principal))
  {
  }
}
