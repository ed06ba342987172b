# Mortgage amortization: the exact-decimal core

This project models the exact-decimal part of the `Mortgage` engine in
`mortgage.py` and proves properties of it in Dafny. It covers three pieces:

- **`dollar`**: a value is quantized to two decimal places. Ceiling rounding is
  the default. The amortization schedule uses round-half-up for the interest.
- **The term (`__months`)**: exactly one of months and years must be given. The
  result is a whole number of months; otherwise `InputError` is raised.
- **`monthly_payment_schedule`**: the generator starts from the cent-rounded
  amount and the level payment, and quantizes the annual rate once to six
  decimals. Each month it charges half-up-rounded interest on the running
  balance, yields `(payment - interest, interest)` and lowers the balance, and
  a final month pays off whatever remains.

All of this is exact `decimal` arithmetic, so the model works with integers:

- money is an integer number of cents;
- the rate is an integer number of millionths;
- any other decimal or quotient is a `Ratio(num, den)` with `den > 0`.

The month's interest in cents is balance x rate / (12 x 10^6), rounded half-up.

Modules, one file each:

- `Wrappers` (`wrappers.dfy`): `Option` for omitted arguments and `Result` for
  raised errors.
- `Money` (`money.dfy`): rounding modes, `Quantize`, `Dollar` and `RateMicros`.
- `Term` (`term.dfy`): `int()` truncation, `InputError` and the term parser.
- `Amortization` (`amortization.dfy`): one month (`Step`) and the whole schedule
  (`Schedule`). It also gives an independent description of the schedule by
  balances owed (`IsScheduleOf`), and proves the properties of the schedule.
- `Engine` (`engine.dfy`): the `Mortgage` record and its constructor, the
  cent-rounded payment, `annual_payment`, `total_payout` and the schedule
  started from a loan.
- `Scenarios` (`scenarios.dfy`): worked examples: 6% over 360 months on
  100000.00, 6% over 12 months on 1200.00, and the two malformed terms.

Notes on how the code behaves, and which the model follows:

- The rate is quantized as an annual rate to six decimals, then divided by
  twelve exactly in every month. It is not a monthly rate rounded to six
  digits.
- `quantize` at mortgage.py:101 passes no rounding mode, so the decimal
  context's default, round-half-even, applies there.
- The amount is rounded with `ROUND_CEILING`, not half-up.
- Nothing checks that the term is positive: `int(0.5)` gives 0, and a
  negative term is truncated towards zero (`int(-3.5)` gives -3) but not
  rejected.

## Model

| member | source | states |
|---|---|---|
| Money.Dollar | mortgage.py:11-17 | Ceiling: the result is whole cents, never below the value and less than one cent above it. Half-up: within half a cent, with an exact half-cent tie rounded away from zero. |
| Money.RoundingIsUnique | mortgage.py:17 | Each rounding mode (ceiling, half-up, half-even) admits exactly one result, so quantizing is deterministic. |
| Money.QuantizeExact | mortgage.py:17 | A value that is already a whole number of quantization steps comes back unchanged in every mode. |
| Money.DollarIdempotent | mortgage.py:11-17 | Re-rounding the cents that `dollar` returned, in any mode, returns the same cents. |
| Money.RateMicros | mortgage.py:101 | The annual rate in millionths is within half a millionth of the rate; exact ties go to the even neighbour. |
| Money.RateMicrosNonNegative | mortgage.py:101 | A non-negative rate never quantizes to a negative number of millionths. |
| Term.Truncate | mortgage.py:116 | `int(x)` truncates towards zero: the result never has the opposite sign to x (it is 0 when x lies strictly between -1 and 1), and it lies within one unit of x, on the zero side. |
| Term.Months | mortgage.py:112-120 | Fails with the "together" message iff both months and years are given, and with the "must be specified" message iff neither is. Otherwise it returns months truncated, or 12 x years truncated. |
| Term.YearsAgreeWithMonths | mortgage.py:116-118 | Giving 12 x y months or y years yields the same term; for a whole y it is exactly 12 y months. |
| Amortization.Interest | mortgage.py:103-104 | The month's interest is balance x rate / 12 rounded half-up to the cent: within half a cent, with ties away from zero. |
| Amortization.InterestNonNegative | mortgage.py:103-104 | A non-negative balance at a non-negative rate is never charged negative interest. |
| Amortization.InterestIsNearest | mortgage.py:103-104 | Any whole number of cents strictly within half a cent of balance x rate / 12 is the month's interest, so the interest is pinned by its bounds. |
| Amortization.InterestMonotone | mortgage.py:103-104 | At a non-negative rate, a smaller balance is never charged more interest. |
| Amortization.Step | mortgage.py:103-110 | The month is final iff payment >= balance + interest. A final month yields the whole balance, and principal + interest <= payment. Any other month yields principal + interest = payment, lowers the balance by exactly that principal, and leaves a positive balance. |
| Amortization.Schedule | mortgage.py:102-110 | When the generator ends, it yields at least one installment. The principal portions sum to the starting balance, every installment is at most the payment, and all but the last equal it. |
| Amortization.ScheduleHasPasses | mortgage.py:102-110 | The schedule holds exactly one installment per pass through the loop body, as counted by `Passes`. |
| Amortization.ScheduleMeetsDescription | mortgage.py:102-110 | Installment k charges interest on the balance left after the first k. Every installment but the last pays exactly the payment; the last pays off the remaining balance, which the payment covers. |
| Amortization.DescriptionDeterminesSchedule | mortgage.py:102-110 | No other sequence meets that description: it characterizes the schedule exactly. |
| Amortization.ScheduleEndsOnlyIfPaysOff | mortgage.py:102-110 | At a non-negative rate, whatever the balance, a finite schedule exists only when `PaysOff` holds. Otherwise `while True` never reaches its `break`. |
| Amortization.ScheduleAdjacent | mortgage.py:105-110 | Every month but the last retires a positive amount of principal, and each month charges no more interest than the month before. |
| Amortization.ScheduleDecreases | mortgage.py:102-110 | While the schedule runs, the balance owed stays positive and strictly decreases. Interest never increases, and nothing is owed after the last installment. From a non-negative balance at a non-negative rate, interest is never negative. |
| Amortization.ScheduleLength | mortgage.py:102-110 | If the payment exceeds the first month's interest by d, every month but the last retires at least d: (length - 1) x d < balance. |
| Amortization.ScheduleLengthBound | mortgage.py:102-110 | When the payment exceeds the first month's interest, the schedule has at most ceil(balance / (payment - first interest)) installments, and exactly one for a zero balance. |
| Amortization.ScheduleCollects | mortgage.py:105-110 | Any run of consecutive installments collects at most one payment per month, and exactly one per month when it stops before the final month. |
| Engine.NewMortgage | mortgage.py:31-34 | Construction fails exactly when the term fails, with the same error. On success it keeps the rate and the parsed term, and the amount is rounded up to whole cents (at most one cent above the given amount). |
| Engine.MonthlyPayment | mortgage.py:54-56 | The payment is the pre-rounding amount rounded up to whole cents: never below it and less than a cent above it. |
| Engine.AnnualPayment | mortgage.py:62-63 | `annual_payment` is twelve monthly payments added up. Its partner is `Engine.AnnualPaymentCoversYear`. |
| Engine.TotalPayout | mortgage.py:65-66 | `total_payout` is one payment added up for each month of the term, negated for a negative term. Its partner is `Engine.PayoutCoversSchedule`. |
| Engine.ScheduleStart | mortgage.py:99-101 | The generator starts from a balance equal to the stored amount, because re-rounding whole cents changes nothing. It uses the level payment, and the rate is exactly the half-even quantization `RateMicros`: within half a millionth, with ties to the even neighbour. |
| Engine.MonthlyPaymentSchedule | mortgage.py:98-110 | The schedule of a loan meets the description, its principal portions sum exactly to the cent-rounded amount, and no installment exceeds the payment. |
| Engine.PayoutCoversSchedule | mortgage.py:65-66 | If the schedule ends within the term and the payment is not negative, `total_payout` covers the amount plus all the interest the schedule charges. At a non-negative rate it also covers the amount alone. |
| Engine.AnnualPaymentCoversYear | mortgage.py:62-63 | Any twelve consecutive months of the schedule collect at most `annual_payment`, and exactly that when they end before the final month. |
| Scenarios.MalformedTermsRejected | mortgage.py:112-120 | Giving months 12 and years 1 is rejected with the "together" error, and giving neither with the "must be specified" error. |
| Scenarios.ThirtyYearLoan | mortgage.py:98-110 | At 6% over 360 months on 100000.00, the amount is 10000000 cents and the payment 599.5505... rounds up to 599.56. The annual payment is 7194.72, and the first month yields principal 99.56 and interest 500.00. |
| Scenarios.OneYearLoan | mortgage.py:98-110 | At 6% over 12 months on 1200.00 with payment 103.28, the generator ends after exactly twelve installments. |

## Left out

- Floating-point quantities are not modelled: `month_growth`, `apy`, `loan_years`, `total_value`, `balance`, `total_cost`, and the float annuity formula inside `monthly_payment`. They use binary floating point and `**`, and `balance` ignores the per-month rounding by design.
- `monthly_payment` is modelled only from its float pre-amount onwards: `MonthlyPayment` takes that pre-amount as an exact input. As a consequence the model does not prove that payment x term covers the amount for every loan. `PayoutCoversSchedule` proves it for a non-negative payment and rate whenever the schedule ends within the term.
- Python floats reach `Decimal` through `str(f)`, and `__init__` applies `float(interest)`. Both are left out: every input is an exact `Ratio`. The same goes for `years * 12`, which Python may evaluate in floating point before `int()`.
- The decimal context's 28-digit precision at mortgage.py:103 is left out, and so is the `InvalidOperation` that `quantize` raises on results with more than 28 digits. The division is exact here. Where the true quotient is not a half-cent tie, it differs from any tie by at least 10^-8 / 12 dollars, so 28 digits round it the same way unless the balance exceeds about 10^17 dollars.
- The `print` inside `InputError.__init__` is left out. The error is only the `Failure` value carrying the message.
- `print_summary`, `print_schedule_summary` and `main` are left out, since they are argument parsing and text output.
- The accessors `rate`, `loan_months` and `amount` are the fields of the `Mortgage` datatype.
- The generator's lazy delivery is left out. `Step` is one pass through the loop body, and `Schedule` is the whole sequence the generator yields when consumed to its end.
- Amortization.Schedule: it is defined only under `PaysOff`, meaning either a first month that is final, or a non-negative balance and rate with a payment above the first month's interest. That covers every input, negative amounts included, on which the first month settles the loan. `ScheduleEndsOnlyIfPaysOff` shows that at a non-negative rate nothing outside `PaysOff` ends: the source loops forever there. At a negative rate, a schedule that runs for more than one month is not modelled, because the interest then shrinks as the balance grows and whether the loop ends depends on the numbers.
- Engine.MonthlyPaymentSchedule: it has the same `PaysOff` requirement, for the same reason.
- Engine.PayoutCoversSchedule: it requires a non-negative payment. With a negative payment, paying for more months collects less, so the promise does not hold.
- Rounding modes of `decimal` that the engine never uses (floor, down, half-down, 05up) are not modelled.
