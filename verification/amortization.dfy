/** The amortization schedule of `Mortgage.monthly_payment_schedule`: each
    month charges interest on the running balance, rounded half-up to the
    cent, and the rest of the level payment retires principal, until a final
    month pays off whatever is left. Money is in integer cents and the annual
    rate in integer millionths. */
module Amortization {
  import opened Money

  /** Denominator of the monthly interest in cents: balance (cents) times rate
      (millionths) divided by twelve months and by one million. */
  const MonthlyRateDen: Positive := 12 * MicrosPerUnit

  /** One yielded pair `(principle, interest)`, in cents. */
  datatype Installment = Installment(principal: int, interest: int)

  /** The generator's state between two yields: the running balance, the rate
      quantized once before the loop, and the level monthly payment. */
  datatype Ledger = Ledger(balance: int, rate: int, payment: int)

  /** One pass through the `while True` body: either the final yield, or a
      yield followed by the state of the next month. */
  datatype Month = Final(paid: Installment) | Continue(paid: Installment, next: Ledger)

  /** The month's interest in cents: balance * rate / 12, computed exactly
      and rounded half-up to the cent. */
  function Interest(balance: int, rate: int): (i: int)
    ensures -(MonthlyRateDen as int) <= 2 * (MonthlyRateDen * i - balance * rate) <= MonthlyRateDen
    ensures 2 * (MonthlyRateDen * i - balance * rate) == MonthlyRateDen ==> balance * rate > 0
    ensures 2 * (balance * rate - MonthlyRateDen * i) == MonthlyRateDen ==> balance * rate < 0
  {
    // balance is in cents and rate in millionths, so the unrounded interest in
    // dollars is balance * rate / (100 * 12 * 10^6)
    Dollar(Ratio(balance * rate, CentsPerDollar * MonthlyRateDen), HalfUp)
  }

  /** A non-negative balance at a non-negative rate accrues no negative interest. */
  lemma InterestNonNegative(balance: int, rate: int)
    requires 0 <= balance && 0 <= rate
    ensures 0 <= Interest(balance, rate)
  {
  }

  /** A smaller balance is never charged more interest. */
  lemma {:induction false} InterestMonotone(b1: int, b2: int, rate: int)
    requires b1 <= b2 && 0 <= rate
    ensures Interest(b1, rate) <= Interest(b2, rate)
  {
    assert b1 * rate <= b2 * rate by {
      assert b2 * rate - b1 * rate == (b2 - b1) * rate;
    }
  }

  /** An integer strictly within half a cent of the exact interest is the
      month's interest. */
  lemma {:induction false} InterestIsNearest(balance: int, rate: int, i: int)
    requires -(MonthlyRateDen as int) < 2 * (MonthlyRateDen * i - balance * rate) < MonthlyRateDen
    ensures Interest(balance, rate) == i
  {
    var j := Interest(balance, rate);
    if j < i {
      MulMonotone(j, i, MonthlyRateDen);
    } else if i < j {
      MulMonotone(i, j, MonthlyRateDen);
    }
  }

  /** One month of the schedule. */
  function Step(s: Ledger): (r: Month)
    ensures r.paid.interest == Interest(s.balance, s.rate)
    ensures r.Final? <==> s.payment >= s.balance + r.paid.interest
    ensures r.Final? ==>
      r.paid.principal == s.balance && r.paid.principal + r.paid.interest <= s.payment
    ensures r.Continue? ==>
      && r.paid.principal + r.paid.interest == s.payment
      && r.next == s.(balance := s.balance - r.paid.principal)
      && 0 < r.next.balance
  {
    var interest := Interest(s.balance, s.rate);
    if s.payment >= s.balance + interest then
      Final(Installment(s.balance, interest))
    else
      var principal := s.payment - interest;
      Continue(Installment(principal, interest), s.(balance := s.balance - principal))
  }

  /** The schedule ends: either this month already pays everything off, or
      the balance and rate are not negative and the payment exceeds the
      interest, so every month retires principal. */
  predicate PaysOff(s: Ledger)
  {
    || s.balance + Interest(s.balance, s.rate) <= s.payment
    || (0 <= s.balance && 0 <= s.rate && Interest(s.balance, s.rate) < s.payment)
  }

  function SumPrincipal(xs: seq<Installment>): int
  {
    if |xs| == 0 then 0 else xs[0].principal + SumPrincipal(xs[1..])
  }

  function SumInterest(xs: seq<Installment>): int
  {
    if |xs| == 0 then 0 else xs[0].interest + SumInterest(xs[1..])
  }

  /** Everything collected over xs: principal plus interest. */
  function Collected(xs: seq<Installment>): int
  {
    SumPrincipal(xs) + SumInterest(xs)
  }

  /** The balance still owed before installment k of xs, starting from balance. */
  function Owed(balance: int, xs: seq<Installment>, k: nat): int
    requires k <= |xs|
  {
    balance - SumPrincipal(xs[..k])
  }

  /** The whole schedule the generator yields, in order. */
  function Schedule(s: Ledger): (r: seq<Installment>)
    requires PaysOff(s)
    ensures 1 <= |r|
    ensures r[0] == Step(s).paid
    ensures SumPrincipal(r) == s.balance
    ensures forall k :: 0 <= k < |r| ==> r[k].principal + r[k].interest <= s.payment
    ensures forall k :: 0 <= k < |r| - 1 ==> r[k].principal + r[k].interest == s.payment
    decreases s.balance
  {
    match Step(s)
    case Final(x) => [x]
    case Continue(x, t) =>
      InterestMonotone(t.balance, s.balance, s.rate);
      [x] + Schedule(t)
  }

  /** How many times the generator runs the loop body before it breaks. */
  function Passes(s: Ledger): (n: nat)
    requires PaysOff(s)
    ensures 1 <= n
    decreases s.balance
  {
    match Step(s)
    case Final(_) => 1
    case Continue(_, t) =>
      InterestMonotone(t.balance, s.balance, s.rate);
      1 + Passes(t)
  }

  /** The schedule holds one installment per pass through the loop body. */
  lemma {:induction false} ScheduleHasPasses(s: Ledger)
    requires PaysOff(s)
    ensures |Schedule(s)| == Passes(s)
    decreases s.balance
  {
    match Step(s)
    case Final(_) =>
    case Continue(_, t) =>
      InterestMonotone(t.balance, s.balance, s.rate);
      ScheduleHasPasses(t);
  }

  // ---------------------------------------------------------------------
  // Sums over a schedule

  lemma {:induction false} SumAppend(a: seq<Installment>, b: seq<Installment>)
    ensures SumPrincipal(a + b) == SumPrincipal(a) + SumPrincipal(b)
    ensures SumInterest(a + b) == SumInterest(a) + SumInterest(b)
    decreases |a|
  {
    if |a| > 0 {
      assert (a + b)[1..] == a[1..] + b;
      SumAppend(a[1..], b);
    } else {
      assert a + b == b;
    }
  }

  /** Owed after a first installment x is owed by the rest of the schedule,
      started from the balance x leaves. */
  lemma OwedShift(balance: int, x: Installment, xs: seq<Installment>, k: nat)
    requires k <= |xs|
    ensures Owed(balance, [x] + xs, k + 1) == Owed(balance - x.principal, xs, k)
  {
    assert ([x] + xs)[..k + 1] == [x] + xs[..k];
    assert ([x] + xs[..k])[1..] == xs[..k];
  }

  // ---------------------------------------------------------------------
  // An independent description of the schedule

  /** Installment k charges interest on the balance left after the first k. */
  ghost predicate ChargesInterest(xs: seq<Installment>, s: Ledger)
  {
    forall k :: 0 <= k < |xs| ==> xs[k].interest == Interest(Owed(s.balance, xs, k), s.rate)
  }

  /** Every installment but the last pays principal + interest = payment and
      leaves a balance behind. */
  ghost predicate PaysLevel(xs: seq<Installment>, s: Ledger)
  {
    forall k :: 0 <= k < |xs| - 1 ==>
      && xs[k].principal == s.payment - xs[k].interest
      && s.payment < Owed(s.balance, xs, k) + xs[k].interest
  }

  /** The last installment pays off the whole remaining balance, and the
      payment covers it with its interest. */
  ghost predicate SettlesLast(xs: seq<Installment>, s: Ledger)
  {
    && 1 <= |xs|
    && xs[|xs| - 1].principal == Owed(s.balance, xs, |xs| - 1)
    && s.payment >= Owed(s.balance, xs, |xs| - 1) + xs[|xs| - 1].interest
  }

  /** xs is the schedule started from s. */
  ghost predicate IsScheduleOf(xs: seq<Installment>, s: Ledger)
  {
    ChargesInterest(xs, s) && PaysLevel(xs, s) && SettlesLast(xs, s)
  }

  /** The state after paying x as principal: only the balance changes. */
  ghost predicate After(s: Ledger, x: Installment, t: Ledger)
  {
    t == s.(balance := s.balance - x.principal)
  }

  lemma ChargesInterestCons(s: Ledger, x: Installment, t: Ledger, xs: seq<Installment>)
    requires After(s, x, t) && x.interest == Interest(s.balance, s.rate)
    ensures ChargesInterest([x] + xs, s) <==> ChargesInterest(xs, t)
  {
    var ys := [x] + xs;
    if ChargesInterest(xs, t) {
      forall k | 0 <= k < |ys|
        ensures ys[k].interest == Interest(Owed(s.balance, ys, k), s.rate)
      {
        if k > 0 {
          OwedShift(s.balance, x, xs, k - 1);
          assert ys[k] == xs[k - 1];
        } else {
          assert ys[..0] == [];
        }
      }
    }
    if ChargesInterest(ys, s) {
      forall k | 0 <= k < |xs|
        ensures xs[k].interest == Interest(Owed(t.balance, xs, k), t.rate)
      {
        OwedShift(s.balance, x, xs, k);
        assert ys[k + 1] == xs[k];
      }
    }
  }

  lemma PaysLevelCons(s: Ledger, x: Installment, t: Ledger, xs: seq<Installment>)
    requires After(s, x, t) && 1 <= |xs|
    requires x.principal == s.payment - x.interest && s.payment < s.balance + x.interest
    ensures PaysLevel([x] + xs, s) <==> PaysLevel(xs, t)
  {
    var ys := [x] + xs;
    if PaysLevel(xs, t) {
      forall k | 0 <= k < |ys| - 1
        ensures ys[k].principal == s.payment - ys[k].interest
        ensures s.payment < Owed(s.balance, ys, k) + ys[k].interest
      {
        if k > 0 {
          OwedShift(s.balance, x, xs, k - 1);
          assert ys[k] == xs[k - 1];
        } else {
          assert ys[..0] == [];
        }
      }
    }
    if PaysLevel(ys, s) {
      forall k | 0 <= k < |xs| - 1
        ensures xs[k].principal == t.payment - xs[k].interest
        ensures t.payment < Owed(t.balance, xs, k) + xs[k].interest
      {
        OwedShift(s.balance, x, xs, k);
        assert ys[k + 1] == xs[k];
      }
    }
  }

  lemma SettlesLastCons(s: Ledger, x: Installment, t: Ledger, xs: seq<Installment>)
    requires After(s, x, t) && 1 <= |xs|
    ensures SettlesLast([x] + xs, s) <==> SettlesLast(xs, t)
  {
    var ys := [x] + xs;
    OwedShift(s.balance, x, xs, |xs| - 1);
    assert ys[|ys| - 1] == xs[|xs| - 1];
  }

  /** Prefixing the installment of a non-final month to a schedule of the next
      month's state gives a schedule of this month's state, and conversely. */
  lemma ScheduleOfCons(s: Ledger, xs: seq<Installment>)
    requires Step(s).Continue? && 1 <= |xs|
    ensures IsScheduleOf([Step(s).paid] + xs, s) <==> IsScheduleOf(xs, Step(s).next)
  {
    var x, t := Step(s).paid, Step(s).next;
    ChargesInterestCons(s, x, t, xs);
    PaysLevelCons(s, x, t, xs);
    SettlesLastCons(s, x, t, xs);
  }

  /** The generator's schedule meets the description. */
  lemma {:induction false} ScheduleMeetsDescription(s: Ledger)
    requires PaysOff(s)
    ensures IsScheduleOf(Schedule(s), s)
    decreases s.balance
  {
    match Step(s)
    case Final(x) =>
      assert Schedule(s) == [x];
      assert Schedule(s)[..0] == [];
    case Continue(x, t) =>
      InterestMonotone(t.balance, s.balance, s.rate);
      ScheduleMeetsDescription(t);
      ScheduleOfCons(s, Schedule(t));
  }

  /** The description determines the schedule: nothing else meets it. */
  lemma {:induction false} DescriptionDeterminesSchedule(s: Ledger, xs: seq<Installment>)
    requires PaysOff(s) && IsScheduleOf(xs, s)
    ensures xs == Schedule(s)
    decreases s.balance
  {
    assert xs[..0] == [];
    assert Owed(s.balance, xs, 0) == s.balance;
    if |xs| == 1 {
      assert Step(s).Final?;
    } else {
      assert Step(s).Continue?;
      var t := Step(s).next;
      assert xs == [xs[0]] + xs[1..];
      ScheduleOfCons(s, xs[1..]);
      InterestMonotone(t.balance, s.balance, s.rate);
      DescriptionDeterminesSchedule(t, xs[1..]);
    }
  }

  /** Conversely, when the rate is not negative, the generator ends only if
      PaysOff holds: otherwise no finite sequence of installments is its
      schedule, and the source's `while True` runs forever. */
  lemma {:induction false} ScheduleEndsOnlyIfPaysOff(s: Ledger, xs: seq<Installment>)
    requires 0 <= s.rate && IsScheduleOf(xs, s)
    ensures PaysOff(s)
    decreases |xs|
  {
    assert xs[..0] == [];
    assert Owed(s.balance, xs, 0) == s.balance;
    if |xs| > 1 && !PaysOff(s) {
      assert Step(s).Continue?;
      var t := Step(s).next;
      assert xs == [xs[0]] + xs[1..];
      ScheduleOfCons(s, xs[1..]);
      ScheduleEndsOnlyIfPaysOff(t, xs[1..]);
      InterestMonotone(s.balance, t.balance, s.rate);
      assert false;
    }
  }

  // ---------------------------------------------------------------------
  // Shape of the schedule

  /** Paying installment k reduces what is owed by its principal. */
  lemma OwedNext(balance: int, xs: seq<Installment>, k: nat)
    requires k < |xs|
    ensures Owed(balance, xs, k + 1) == Owed(balance, xs, k) - xs[k].principal
  {
    assert xs[..k + 1] == xs[..k] + [xs[k]];
    SumAppend(xs[..k], [xs[k]]);
    assert SumPrincipal([xs[k]]) == xs[k].principal;
  }

  /** Month k retires some principal, and month k + 1 charges no more
      interest than month k. */
  ghost predicate Eases(xs: seq<Installment>, k: nat)
    requires k + 1 < |xs|
  {
    0 < xs[k].principal && xs[k + 1].interest <= xs[k].interest
  }

  /** Consecutive months: every month but the last retires some principal,
      and the interest never goes up from one month to the next. */
  lemma {:induction false} ScheduleAdjacent(s: Ledger)
    requires PaysOff(s)
    ensures forall k :: 0 <= k < |Schedule(s)| - 1 ==> Eases(Schedule(s), k)
    decreases s.balance
  {
    var xs := Schedule(s);
    match Step(s)
    case Final(x) =>
    case Continue(x, t) =>
      InterestMonotone(t.balance, s.balance, s.rate);
      var ts := Schedule(t);
      assert xs == [x] + ts;
      ScheduleAdjacent(t);
      forall k | 0 <= k < |xs| - 1
        ensures Eases(xs, k)
      {
        assert xs[k + 1] == ts[k];
        if k > 0 {
          assert Eases(ts, k - 1);
          assert xs[k] == ts[k - 1];
        }
      }
  }

  /** Month k leaves less owed than month k - 1 and charges no more interest. */
  ghost predicate Descends(balance: int, xs: seq<Installment>, k: nat)
    requires k + 1 < |xs|
  {
    Owed(balance, xs, k + 1) < Owed(balance, xs, k) && xs[k + 1].interest <= xs[k].interest
  }

  /** Relations between consecutive entries extend to any two entries. */
  lemma {:induction false} DecreasingPairs(balance: int, xs: seq<Installment>, j: nat, k: nat)
    requires j < k < |xs|
    requires forall i :: 0 <= i < |xs| - 1 ==> Descends(balance, xs, i)
    ensures Owed(balance, xs, k) < Owed(balance, xs, j) && xs[k].interest <= xs[j].interest
    decreases k - j
  {
    assert Descends(balance, xs, j);
    if j + 1 < k {
      DecreasingPairs(balance, xs, j + 1, k);
    }
  }

  /** While the schedule runs the balance owed stays positive and strictly
      decreases, the interest never increases, and nothing is owed after the
      last installment. From a non-negative balance at a non-negative rate the
      interest is never negative either. */
  lemma ScheduleDecreases(s: Ledger)
    requires PaysOff(s)
    ensures forall j, k :: 0 <= j < k < |Schedule(s)| ==>
      && Owed(s.balance, Schedule(s), k) < Owed(s.balance, Schedule(s), j)
      && Schedule(s)[k].interest <= Schedule(s)[j].interest
    ensures forall k :: 0 < k < |Schedule(s)| ==> 0 < Owed(s.balance, Schedule(s), k)
    ensures 0 <= s.balance && 0 <= s.rate ==>
      forall k :: 0 <= k < |Schedule(s)| ==> 0 <= Schedule(s)[k].interest
    ensures Owed(s.balance, Schedule(s), |Schedule(s)|) == 0
  {
    ScheduleMeetsDescription(s);
    ScheduleAdjacent(s);
    DescriptionDecreases(s, Schedule(s));
  }

  /** ScheduleDecreases for any sequence that meets the description and
      eases from month to month. */
  lemma DescriptionDecreases(s: Ledger, xs: seq<Installment>)
    requires IsScheduleOf(xs, s)
    requires forall k :: 0 <= k < |xs| - 1 ==> Eases(xs, k)
    ensures forall j, k :: 0 <= j < k < |xs| ==>
      Owed(s.balance, xs, k) < Owed(s.balance, xs, j) && xs[k].interest <= xs[j].interest
    ensures forall k :: 0 < k < |xs| ==> 0 < Owed(s.balance, xs, k)
    ensures 0 <= s.balance && 0 <= s.rate ==> forall k :: 0 <= k < |xs| ==> 0 <= xs[k].interest
    ensures Owed(s.balance, xs, |xs|) == 0
  {
    assert Owed(s.balance, xs, 0) == s.balance by {
      assert xs[..0] == [];
    }
    forall k | 0 <= k < |xs|
      ensures Owed(s.balance, xs, k + 1) == Owed(s.balance, xs, k) - xs[k].principal
    {
      OwedNext(s.balance, xs, k);
    }
    forall k | 0 < k < |xs|
      ensures 0 < Owed(s.balance, xs, k)
    {
      assert s.payment < Owed(s.balance, xs, k - 1) + xs[k - 1].interest;
    }
    if 0 <= s.balance && 0 <= s.rate {
      forall k | 0 <= k < |xs|
        ensures 0 <= xs[k].interest
      {
        InterestNonNegative(Owed(s.balance, xs, k), s.rate);
      }
    }
    forall i | 0 <= i < |xs| - 1
      ensures Descends(s.balance, xs, i)
    {
      assert Eases(xs, i);
    }
    forall j, k | 0 <= j < k < |xs|
      ensures Owed(s.balance, xs, k) < Owed(s.balance, xs, j) && xs[k].interest <= xs[j].interest
    {
      DecreasingPairs(s.balance, xs, j, k);
    }
  }

  lemma MulSucc(n: int, d: int)
    ensures n * d == (n - 1) * d + d
  {
  }

  /** If the payment exceeds the first month's interest by d or more, every
      month but the last retires at least d. */
  lemma {:induction false} ScheduleLength(s: Ledger, d: int)
    requires PaysOff(s) && 0 < s.balance
    requires 0 < d <= s.payment - Interest(s.balance, s.rate)
    ensures (|Schedule(s)| - 1) * d < s.balance
    decreases s.balance
  {
    var m := |Schedule(s)| - 1;
    match Step(s)
    case Final(x) =>
      assert m == 0;
      assert m * d == 0;
    case Continue(x, t) =>
      InterestMonotone(t.balance, s.balance, s.rate);
      ScheduleLength(t, d);
      var n := |Schedule(t)|;
      assert m == n;
      MulSucc(n, d);
      assert m * d == n * d;
  }

  /** n is the floor of b / d exactly when d * n <= b < d * n + d. */
  lemma {:induction false} DivIsFloor(b: int, d: Positive, n: int)
    requires d * n <= b < d * n + d
    ensures b / d == n
  {
    var q := b / d;
    assert b == d * q + b % d;
    if q < n {
      MulMonotone(q, n, d);
    } else if n < q {
      MulMonotone(n, q, d);
    }
  }

  /** (n - 1) * d < b means n is at most ceil(b / d). */
  lemma {:induction false} CeilingOfQuotient(n: int, d: Positive, b: int)
    requires 0 < b && (n - 1) * d < b
    ensures n <= (b + d - 1) / d
  {
    var q := (b - 1) / d;
    assert b - 1 == d * q + (b - 1) % d;
    if n - 1 > q {
      MulMonotone(q, n - 1, d);
      assert false;
    }
    assert d * (q + 1) == d * q + d;
    DivIsFloor(b + d - 1, d, q + 1);
  }

  /** The generator terminates within ceil(balance / (payment - first
      interest)) months, and at once when there is nothing to repay. */
  lemma ScheduleLengthBound(s: Ledger)
    requires PaysOff(s) && Interest(s.balance, s.rate) < s.payment
    ensures var d := s.payment - Interest(s.balance, s.rate);
      && (s.balance == 0 ==> |Schedule(s)| == 1)
      && (0 < s.balance ==> |Schedule(s)| <= (s.balance + d - 1) / d)
  {
    var d := s.payment - Interest(s.balance, s.rate);
    if 0 < s.balance {
      ScheduleLength(s, d);
      CeilingOfQuotient(|Schedule(s)|, d, s.balance);
    } else {
      assert Step(s).Final?;
    }
  }

  // ---------------------------------------------------------------------
  // What the schedule collects

  /** Installments that each collect at most p collect at most n * p in all,
      and exactly n * p when each collects exactly p. */
  lemma {:induction false} CollectedBounds(xs: seq<Installment>, p: int)
    ensures (forall k :: 0 <= k < |xs| ==> xs[k].principal + xs[k].interest <= p) ==>
      Collected(xs) <= |xs| * p
    ensures (forall k :: 0 <= k < |xs| ==> xs[k].principal + xs[k].interest == p) ==>
      Collected(xs) == |xs| * p
    decreases |xs|
  {
    if |xs| > 0 {
      CollectedBounds(xs[1..], p);
      assert forall k :: 0 <= k < |xs[1..]| ==> xs[1..][k] == xs[k + 1];
      assert |xs| * p == (|xs| - 1) * p + p;
    }
  }

  /** A slice of installments that each collect at most p, all but the last
      exactly p, collects (hi - lo) * p when it stops before the last. */
  lemma SliceCollects(xs: seq<Installment>, p: int, lo: nat, hi: nat)
    requires lo <= hi <= |xs|
    requires forall k :: 0 <= k < |xs| ==> xs[k].principal + xs[k].interest <= p
    requires forall k :: 0 <= k < |xs| - 1 ==> xs[k].principal + xs[k].interest == p
    ensures Collected(xs[lo..hi]) <= (hi - lo) * p
    ensures hi < |xs| ==> Collected(xs[lo..hi]) == (hi - lo) * p
  {
    var ys := xs[lo..hi];
    forall k | 0 <= k < |ys|
      ensures ys[k].principal + ys[k].interest <= p
      ensures hi < |xs| ==> ys[k].principal + ys[k].interest == p
    {
      assert ys[k] == xs[lo + k];
    }
    CollectedBounds(ys, p);
  }

  /** Any run of consecutive installments lo..hi of the schedule collects at
      most one payment per month, and exactly one per month when it stops
      before the final installment. */
  lemma ScheduleCollects(s: Ledger, lo: nat, hi: nat)
    requires PaysOff(s) && lo <= hi <= |Schedule(s)|
    ensures Collected(Schedule(s)[lo..hi]) <= (hi - lo) * s.payment
    ensures hi < |Schedule(s)| ==> Collected(Schedule(s)[lo..hi]) == (hi - lo) * s.payment
  {
    SliceCollects(Schedule(s), s.payment, lo, hi);
  }

  lemma {:induction false} SumInterestNonNegative(xs: seq<Installment>)
    requires forall k :: 0 <= k < |xs| ==> 0 <= xs[k].interest
    ensures 0 <= SumInterest(xs)
    decreases |xs|
  {
    if |xs| > 0 {
      assert forall k :: 0 <= k < |xs[1..]| ==> xs[1..][k] == xs[k + 1];
      SumInterestNonNegative(xs[1..]);
    }
  }
}
