/** `calculate_age_months`: a timestamp's age in fractional calendar months
    since a birth date. The birth date is a calendar day taken at midnight, as
    `pd.Timestamp("2025-08-30")` is; with such a birth date the time of day of
    the current timestamp can change neither the comparison with the birth date
    nor the whole months and whole days that `relativedelta` reports. */
module AgeCalculator {
  import opened Calendar

  /** What `relativedelta(current, birth)` reports, with its years folded into
      months (`rd.years * 12 + rd.months`) and its remainder in whole days. */
  datatype Elapsed = Elapsed(months: nat, days: nat)

  /** The whole calendar months from `birth` to `current`: the last month offset
      of `birth` that is not later than `current`. */
  function FullMonths(current: Date, birth: Date): (n: nat)
    requires ValidDate(current) && ValidDate(birth) && AtOrBefore(birth, current)
    ensures AtOrBefore(AddMonths(birth, n), current)
    ensures Before(current, AddMonths(birth, n + 1))
  {
    var k := MonthIndex(current) - MonthIndex(birth);
    var sameMonth := AddMonths(birth, k);
    if current.day < sameMonth.day then k - 1 else k
  }

  /** `relativedelta(current, birth)` for `birth <= current`. */
  function RelativeDelta(current: Date, birth: Date): (rd: Elapsed)
    requires ValidDate(current) && ValidDate(birth) && AtOrBefore(birth, current)
    ensures rd.days < MonthSpan(birth, rd.months)
    ensures Ordinal(AddMonths(birth, rd.months)) + rd.days == Ordinal(current)
  {
    var n := FullMonths(current, birth);
    AtOrBeforeIffOrdinalLe(AddMonths(birth, n), current);
    BeforeIffOrdinalLess(current, AddMonths(birth, n + 1));
    Elapsed(n, Ordinal(current) - Ordinal(AddMonths(birth, n)))
  }

  /** `days_in_month`: the days from `birth + DateOffset(months=n)` to
      `birth + DateOffset(months=n + 1)`. It is 28 to 31, so the guard
      `days_in_month > 0` always holds and the fallback fraction 0 is never used. */
  function MonthSpan(birth: Date, n: nat): (span: int)
    requires ValidDate(birth)
    ensures 28 <= span <= 31
  {
    MonthOffsetSpan(birth, n);
    Ordinal(AddMonths(birth, n + 1)) - Ordinal(AddMonths(birth, n))
  }

  /** The guarded ratio `days / days_in_month if days_in_month > 0 else 0`. */
  function MonthFraction(days: nat, daysInMonth: int): (f: real)
    ensures f >= 0.0
    ensures days < daysInMonth ==> f < 1.0
    ensures f == 0.0 <==> days == 0 || daysInMonth <= 0
  {
    if daysInMonth > 0 then days as real / daysInMonth as real else 0.0
  }

  lemma MonthFractionMonotone(d1: nat, d2: nat, daysInMonth: int)
    requires d1 <= d2
    ensures MonthFraction(d1, daysInMonth) <= MonthFraction(d2, daysInMonth)
  {
    if daysInMonth > 0 {
      var q := daysInMonth as real;
      assert d2 as real / q - d1 as real / q == (d2 - d1) as real / q;
    }
  }

  /** `calculate_age_months(current, birth)`. */
  function AgeMonths(current: Timestamp, birth: Date): (age: real)
    requires ValidTimestamp(current) && ValidDate(birth)
    ensures age >= 0.0
  {
    if Before(current.date, birth) then 0.0
    else
      var rd := RelativeDelta(current.date, birth);
      var fullMonths := rd.months;
      var daysInMonth := MonthSpan(birth, fullMonths);
      var fraction := MonthFraction(rd.days, daysInMonth);
      fullMonths as real + fraction
  }

  // ---------------------------------------------------------------------------
  // Properties

  /** `FullMonths` is exactly the largest month offset not later than `current`. */
  lemma FullMonthsIsLargest(current: Date, birth: Date, m: nat)
    requires ValidDate(current) && ValidDate(birth) && AtOrBefore(birth, current)
    ensures AtOrBefore(AddMonths(birth, m), current) <==> m <= FullMonths(current, birth)
  {
    var n := FullMonths(current, birth);
    if m <= n {
      AddMonthsStrictlyIncreasing(birth, m, n);
    } else {
      AddMonthsStrictlyIncreasing(birth, n + 1, m);
    }
  }

  /** From the birth date on, the age lies in `[full_months, full_months + 1)`:
      the whole part of the age is the number of whole months. */
  lemma AgeBetweenWholeMonths(current: Timestamp, birth: Date)
    requires ValidTimestamp(current) && ValidDate(birth) && !Before(current.date, birth)
    ensures var n := FullMonths(current.date, birth);
            n as real <= AgeMonths(current, birth) < n as real + 1.0
    ensures AgeMonths(current, birth).Floor == FullMonths(current.date, birth)
  {
    var rd := RelativeDelta(current.date, birth);
    var span := MonthSpan(birth, rd.months);
  }

  /** At birth plus exactly `n` calendar months (day clamped to month end) the
      age is exactly `n`, whatever the time of day. */
  lemma AgeAtMonthOffset(birth: Date, n: nat, minute: int)
    requires ValidDate(birth) && 0 <= minute < 24 * 60
    ensures AgeMonths(Timestamp(AddMonths(birth, n), minute), birth) == n as real
  {
    var current := AddMonths(birth, n);
    AddMonthsStrictlyIncreasing(birth, 0, n);
    AddZeroMonths(birth);
    FullMonthsIsLargest(current, birth, n);
    FullMonthsIsLargest(current, birth, n + 1);
  }

  /** The age is zero exactly on and before the birth date. */
  lemma AgeZeroIff(current: Timestamp, birth: Date)
    requires ValidTimestamp(current) && ValidDate(birth)
    ensures AgeMonths(current, birth) == 0.0 <==> AtOrBefore(current.date, birth)
  {
    if !Before(current.date, birth) {
      var rd := RelativeDelta(current.date, birth);
        AddZeroMonths(birth);
      if current.date == birth {
        FullMonthsIsLargest(current.date, birth, 1);
      } else if rd.months == 0 {
        BeforeIffOrdinalLess(birth, current.date);
        assert rd.days > 0;
      }
    }
  }

  /** A later timestamp never has a smaller age. */
  lemma AgeMonotone(a: Timestamp, b: Timestamp, birth: Date)
    requires ValidTimestamp(a) && ValidTimestamp(b) && ValidDate(birth)
    requires StampAtOrBefore(a, b)
    ensures AgeMonths(a, birth) <= AgeMonths(b, birth)
  {
    if !Before(a.date, birth) {
      var na := FullMonths(a.date, birth);
      var nb := FullMonths(b.date, birth);
      FullMonthsIsLargest(b.date, birth, na);
      AgeBetweenWholeMonths(a, birth);
      AgeBetweenWholeMonths(b, birth);
      if na == nb {
        var span := MonthSpan(birth, na);
        AtOrBeforeIffOrdinalLe(a.date, b.date);
        var da, db := RelativeDelta(a.date, birth).days, RelativeDelta(b.date, birth).days;
        MonthFractionMonotone(da, db, span);
      }
    }
  }

  /** Between the month offsets `n` and `n + 1`, `relativedelta` reports `n`
      months and the days elapsed since offset `n`: the calendar reading of
      the age, stated without `FullMonths`. */
  lemma RelativeDeltaWithinMonth(current: Date, birth: Date, n: nat)
    requires ValidDate(current) && ValidDate(birth)
    requires AtOrBefore(AddMonths(birth, n), current)
    requires Before(current, AddMonths(birth, n + 1))
    ensures AtOrBefore(birth, current)
    ensures Ordinal(AddMonths(birth, n)) <= Ordinal(current)
    ensures RelativeDelta(current, birth) == Elapsed(n, Ordinal(current) - Ordinal(AddMonths(birth, n)))
  {
    FullMonthsUnique(current, birth, n);
    AtOrBeforeIffOrdinalLe(AddMonths(birth, n), current);
  }

  /** A date between the month offsets `n` and `n + 1` is on or after the birth
      date and has exactly `n` whole months. */
  lemma FullMonthsUnique(current: Date, birth: Date, n: nat)
    requires ValidDate(current) && ValidDate(birth)
    requires AtOrBefore(AddMonths(birth, n), current)
    requires Before(current, AddMonths(birth, n + 1))
    ensures AtOrBefore(birth, current) && FullMonths(current, birth) == n
  {
    AddZeroMonths(birth);
    AddMonthsStrictlyIncreasing(birth, 0, n);
    FullMonthsIsLargest(current, birth, n);
    FullMonthsIsLargest(current, birth, n + 1);
  }

  /** Between the month offsets `n` and `n + 1` the age is `n` plus the days
      elapsed since offset `n` over the days between the two offsets. */
  lemma AgeWithinMonth(current: Timestamp, birth: Date, n: nat)
    requires ValidTimestamp(current) && ValidDate(birth)
    requires AtOrBefore(AddMonths(birth, n), current.date)
    requires Before(current.date, AddMonths(birth, n + 1))
    ensures Ordinal(AddMonths(birth, n)) <= Ordinal(current.date)
    ensures AgeMonths(current, birth)
         == n as real + MonthFraction(Ordinal(current.date) - Ordinal(AddMonths(birth, n)), MonthSpan(birth, n))
  {
    RelativeDeltaWithinMonth(current.date, birth, n);
  }

  // Values for a cat born on Aug 30, as the tracked cat was in 2025. Each is
  // stated for every year, which also keeps the calendar arithmetic symbolic.

  /** Aug 30 to Sep 30 is one whole month of 31 days, with nothing left over. */
  lemma ExampleOneMonth(y: int)
    requires y >= 1
    ensures AgeMonths(Timestamp(Date(y, 9, 30), 0), Date(y, 8, 30)) == 1.0
  {
    assert AddMonths(Date(y, 8, 30), 1) == Date(y, 9, 30);
    AgeAtMonthOffset(Date(y, 8, 30), 1, 0);
  }

  /** Sep 15 is 16 days into the 31-day month from Aug 30 to Sep 30. */
  lemma ExampleFirstMonth(y: int)
    requires y >= 1
    ensures AgeMonths(Timestamp(Date(y, 9, 15), 0), Date(y, 8, 30)) == 16.0 / 31.0
  {
    var birth, hi, current := Date(y, 8, 30), Date(y, 9, 30), Date(y, 9, 15);
    assert AddMonths(birth, 0) == birth && AddMonths(birth, 1) == hi;
    NextMonthOrdinal(birth, current);
    NextMonthOrdinal(birth, hi);
    RelativeDeltaWithinMonth(current, birth, 0);
    assert RelativeDelta(current, birth) == Elapsed(0, 16);
    assert MonthSpan(birth, 0) == 31;
  }

  /** Oct 15 at 08:00 is 15 days into the 30-day month from Sep 30 to Oct 30. */
  lemma ExampleMidMonth(y: int)
    requires y >= 1
    ensures AgeMonths(Timestamp(Date(y, 10, 15), 8 * 60), Date(y, 8, 30)) == 1.5
  {
    var birth, lo, hi, current := Date(y, 8, 30), Date(y, 9, 30), Date(y, 10, 30), Date(y, 10, 15);
    assert AddMonths(birth, 1) == lo && AddMonths(birth, 2) == hi;
    NextMonthOrdinal(lo, current);
    NextMonthOrdinal(lo, hi);
    RelativeDeltaWithinMonth(current, birth, 1);
    assert RelativeDelta(current, birth) == Elapsed(1, 15);
    assert MonthSpan(birth, 1) == 30;
  }

  /** Six months after Aug 30 is clamped to Feb 28 in a common year, which is an
      age of exactly 6. */
  lemma ExampleClampedToFebruary(y: int)
    requires y >= 1 && !IsLeapYear(y + 1)
    ensures AgeMonths(Timestamp(Date(y + 1, 2, 28), 0), Date(y, 8, 30)) == 6.0
  {
    assert AddMonths(Date(y, 8, 30), 6) == Date(y + 1, 2, 28);
    AgeAtMonthOffset(Date(y, 8, 30), 6, 0);
  }

  /** Mar 1 is one day into the 30-day month from Feb 28 to Mar 30. */
  lemma ExampleAfterFebruary(y: int)
    requires y >= 1 && !IsLeapYear(y + 1)
    ensures AgeMonths(Timestamp(Date(y + 1, 3, 1), 0), Date(y, 8, 30)) == 6.0 + 1.0 / 30.0
  {
    var birth, lo, hi, current := Date(y, 8, 30), Date(y + 1, 2, 28), Date(y + 1, 3, 30), Date(y + 1, 3, 1);
    assert AddMonths(birth, 6) == lo && AddMonths(birth, 7) == hi;
    NextMonthOrdinal(lo, current);
    NextMonthOrdinal(lo, hi);
    RelativeDeltaWithinMonth(current, birth, 6);
    assert RelativeDelta(current, birth) == Elapsed(6, 1);
    assert MonthSpan(birth, 6) == 30;
  }
}
