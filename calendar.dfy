/** Proleptic Gregorian calendar arithmetic: the part of Python's `datetime`,
    dateutil's `relativedelta` and pandas' `DateOffset` that the age calculation
    relies on. Day numbers follow `date.toordinal()` (0001-01-01 is day 1). */
module Calendar {

  datatype Date = Date(year: int, month: int, day: int)

  /** A wall-clock instant at minute resolution, as stored in `date_str`
      ("YYYY-MM-DD HH:MM"); `minute` counts minutes since midnight. */
  datatype Timestamp = Timestamp(date: Date, minute: int)

  predicate IsLeapYear(y: int) {
    y % 4 == 0 && (y % 100 != 0 || y % 400 == 0)
  }

  function DaysInMonth(y: int, m: int): (n: int)
    requires 1 <= m <= 12
    ensures 28 <= n <= 31
    ensures m == 2 <==> n < 30
  {
    if m == 2 then (if IsLeapYear(y) then 29 else 28)
    else if m == 4 || m == 6 || m == 9 || m == 11 then 30
    else 31
  }

  predicate ValidDate(d: Date) {
    d.year >= 1 && 1 <= d.month <= 12 && 1 <= d.day <= DaysInMonth(d.year, d.month)
  }

  predicate ValidTimestamp(t: Timestamp) {
    ValidDate(t.date) && 0 <= t.minute < 24 * 60
  }

  /** Chronological order on dates: an earlier month, or the same month and an
      earlier day. On valid dates this is Python's field-by-field comparison
      (`FieldOrder`). */
  predicate Before(a: Date, b: Date) {
    MonthIndex(a) < MonthIndex(b) || (MonthIndex(a) == MonthIndex(b) && a.day < b.day)
  }

  /** `a <= b`: `b` is not before `a`. */
  predicate AtOrBefore(a: Date, b: Date) {
    !Before(b, a)
  }

  /** `a <= b` on timestamps: an earlier day, or the same day and not a later minute. */
  predicate StampAtOrBefore(a: Timestamp, b: Timestamp) {
    Before(a.date, b.date) || (a.date == b.date && a.minute <= b.minute)
  }

  /** Months elapsed since January of year 0; consecutive calendar months have
      consecutive indices. */
  function MonthIndex(d: Date): int {
    d.year * 12 + d.month - 1
  }

  /** Days in all months before month `m` of year `y`, counted from January of
      year 1: `date(y, m, 1).toordinal() - 1`. */
  function MonthStart(y: int, m: int): (days: int)
    requires y >= 1 && 1 <= m <= 12
    ensures days >= 0
    decreases y, m
  {
    if m > 1 then MonthStart(y, m - 1) + DaysInMonth(y, m - 1)
    else if y > 1 then MonthStart(y - 1, 12) + 31
    else 0
  }

  /** `date.toordinal()`: the day number of a date, 0001-01-01 being day 1. */
  function Ordinal(d: Date): (n: int)
    requires ValidDate(d)
    ensures n >= d.day
    ensures d.year == 1 && d.month == 1 ==> n == d.day
  {
    MonthStart(d.year, d.month) + d.day
  }

  /** A timestamp as a count of minutes, the order pandas sorts `datetime64`
      values in. */
  function StampKey(t: Timestamp): int
    requires ValidTimestamp(t)
  {
    Ordinal(t.date) * (24 * 60) + t.minute
  }

  function Min(a: int, b: int): int {
    if a <= b then a else b
  }

  // ---------------------------------------------------------------------------
  // Day numbers

  /** The month after month `m` of year `y` starts right after its last day. */
  lemma MonthStep(y: int, m: int)
    requires y >= 1 && 1 <= m <= 12
    ensures m < 12 ==> MonthStart(y, m + 1) == MonthStart(y, m) + DaysInMonth(y, m)
    ensures m == 12 ==> MonthStart(y + 1, 1) == MonthStart(y, m) + DaysInMonth(y, m)
  {
  }

  /** A month starts no earlier than the end of any month before it. */
  lemma {:induction false} MonthStartMonotone(y1: int, m1: int, y2: int, m2: int)
    requires y1 >= 1 && 1 <= m1 <= 12 && y2 >= 1 && 1 <= m2 <= 12
    requires y1 * 12 + m1 < y2 * 12 + m2
    ensures MonthStart(y1, m1) + DaysInMonth(y1, m1) <= MonthStart(y2, m2)
    decreases y2 * 12 + m2 - (y1 * 12 + m1)
  {
    MonthStep(y1, m1);
    var (y, m) := if m1 < 12 then (y1, m1 + 1) else (y1 + 1, 1);
    if y * 12 + m < y2 * 12 + m2 {
      MonthStartMonotone(y, m, y2, m2);
    }
  }

  /** Field-by-field order and day-number order agree. */
  lemma BeforeIffOrdinalLess(a: Date, b: Date)
    requires ValidDate(a) && ValidDate(b)
    ensures Before(a, b) <==> Ordinal(a) < Ordinal(b)
    ensures a == b <==> Ordinal(a) == Ordinal(b)
  {
    if MonthIndex(a) < MonthIndex(b) {
      MonthStartMonotone(a.year, a.month, b.year, b.month);
    } else if MonthIndex(b) < MonthIndex(a) {
      MonthStartMonotone(b.year, b.month, a.year, a.month);
    }
  }

  /** `Before` is the comparison of (year, month, day) tuples. */
  lemma FieldOrder(a: Date, b: Date)
    requires ValidDate(a) && ValidDate(b)
    ensures Before(a, b) <==>
      (a.year < b.year
       || (a.year == b.year && a.month < b.month)
       || (a.year == b.year && a.month == b.month && a.day < b.day))
  {
  }

  lemma AtOrBeforeIffOrdinalLe(a: Date, b: Date)
    requires ValidDate(a) && ValidDate(b)
    ensures AtOrBefore(a, b) <==> Ordinal(a) <= Ordinal(b)
  {
    BeforeIffOrdinalLess(b, a);
  }

  /** Comparing minute counts is comparing timestamps. */
  lemma StampKeyOrder(a: Timestamp, b: Timestamp)
    requires ValidTimestamp(a) && ValidTimestamp(b)
    ensures StampKey(a) <= StampKey(b) <==> StampAtOrBefore(a, b)
    ensures StampKey(a) == StampKey(b) <==> a == b
  {
    BeforeIffOrdinalLess(a.date, b.date);
    MinuteKey(Ordinal(a.date), a.minute, Ordinal(b.date), b.minute);
  }

  /** Minute counts compare as (day, minute) pairs, since a day has 1440 minutes. */
  lemma MinuteKey(da: int, ma: int, db: int, mb: int)
    requires 0 <= ma < 24 * 60 && 0 <= mb < 24 * 60
    ensures da * (24 * 60) + ma <= db * (24 * 60) + mb <==> da < db || (da == db && ma <= mb)
    ensures da * (24 * 60) + ma == db * (24 * 60) + mb <==> da == db && ma == mb
  {
  }

  /** Dates in the same month with the same day are the same date. */
  lemma SameMonthSameDate(a: Date, b: Date)
    requires ValidDate(a) && ValidDate(b)
    requires MonthIndex(a) == MonthIndex(b) && a.day == b.day
    ensures a == b
  {
  }

  // ---------------------------------------------------------------------------
  // Day steps, used by `timedelta(days=7)`

  /** The first day of a month directly follows the last day of the month before. */
  lemma MonthBoundary(last: Date, first: Date)
    requires ValidDate(last) && ValidDate(first)
    requires MonthIndex(first) == MonthIndex(last) + 1
    requires last.day == DaysInMonth(last.year, last.month) && first.day == 1
    ensures Ordinal(first) == Ordinal(last) + 1
  {
    NextMonthOrdinal(last, first);
  }

  /** Day numbers of dates in consecutive months differ by the rest of the first
      month plus the day reached in the second. */
  lemma NextMonthOrdinal(a: Date, b: Date)
    requires ValidDate(a) && ValidDate(b) && MonthIndex(b) == MonthIndex(a) + 1
    ensures Ordinal(b) - Ordinal(a) == DaysInMonth(a.year, a.month) - a.day + b.day
  {
    MonthStep(a.year, a.month);
    if a.month < 12 {
      assert b.year == a.year && b.month == a.month + 1;
    } else {
      assert b.year == a.year + 1 && b.month == 1;
    }
  }

  function NextDay(d: Date): (r: Date)
    requires ValidDate(d)
    ensures ValidDate(r) && Ordinal(r) == Ordinal(d) + 1
  {
    if d.day < DaysInMonth(d.year, d.month) then Date(d.year, d.month, d.day + 1)
    else
      var r := if d.month < 12 then Date(d.year, d.month + 1, 1) else Date(d.year + 1, 1, 1);
      MonthBoundary(d, r);
      r
  }

  function PrevDay(d: Date): (r: Date)
    requires ValidDate(d) && Ordinal(d) > 1
    ensures ValidDate(r) && Ordinal(r) == Ordinal(d) - 1
  {
    if d.day > 1 then Date(d.year, d.month, d.day - 1)
    else
      PrevMonthEnd(d);
      LastDayOfPreviousMonth(d)
  }

  /** The last day of the month before the month of `d`. */
  function LastDayOfPreviousMonth(d: Date): Date
    requires 1 <= d.month <= 12
  {
    if d.month > 1 then Date(d.year, d.month - 1, DaysInMonth(d.year, d.month - 1))
    else Date(d.year - 1, 12, 31)
  }

  /** The day before the first of a month (other than the first month of the
      calendar) is the last day of the month before. */
  lemma PrevMonthEnd(d: Date)
    requires ValidDate(d) && d.day == 1 && Ordinal(d) > 1
    ensures var r := LastDayOfPreviousMonth(d);
            ValidDate(r) && Ordinal(r) == Ordinal(d) - 1
  {
    MonthBoundary(LastDayOfPreviousMonth(d), d);
  }

  /** `d + timedelta(days=k)`: the date whose day number is `k` higher. */
  function AddDays(d: Date, k: nat): (r: Date)
    requires ValidDate(d)
    ensures ValidDate(r) && Ordinal(r) == Ordinal(d) + k
    decreases k
  {
    if k == 0 then d else AddDays(NextDay(d), k - 1)
  }

  /** `d - timedelta(days=k)`, defined while the result stays on the calendar. */
  function SubDays(d: Date, k: nat): (r: Date)
    requires ValidDate(d) && Ordinal(d) > k
    ensures ValidDate(r) && Ordinal(r) == Ordinal(d) - k
    decreases k
  {
    if k == 0 then d else SubDays(PrevDay(d), k - 1)
  }

  // ---------------------------------------------------------------------------
  // Month steps, used by `relativedelta` and `DateOffset(months=n)`

  /** `d + DateOffset(months=n)`: same day in the month `n` months later, clamped
      to that month's last day. dateutil's `relativedelta(months=n)` agrees. */
  function AddMonths(d: Date, n: nat): (r: Date)
    requires ValidDate(d)
    ensures ValidDate(r)
    ensures MonthIndex(r) == MonthIndex(d) + n
    ensures r.day == Min(d.day, DaysInMonth(r.year, r.month))
  {
    var (y, m) := ShiftMonth(d.year, d.month, n);
    Date(y, m, Min(d.day, DaysInMonth(y, m)))
  }

  /** The year and month `n` months after month `m` of year `y`. */
  function ShiftMonth(y: int, m: int, n: nat): (r: (int, int))
    requires y >= 1 && 1 <= m <= 12
    ensures r.0 >= 1 && 1 <= r.1 <= 12
    ensures r.0 * 12 + r.1 == y * 12 + m + n
    decreases n
  {
    if n == 0 then (y, m)
    else if m < 12 then ShiftMonth(y, m + 1, n - 1)
    else ShiftMonth(y + 1, 1, n - 1)
  }

  lemma AddZeroMonths(d: Date)
    requires ValidDate(d)
    ensures AddMonths(d, 0) == d
  {
  }

  /** Adding more months gives a strictly later date, and adding months is
      strictly increasing in the number of months. */
  lemma AddMonthsStrictlyIncreasing(d: Date, i: nat, j: nat)
    requires ValidDate(d)
    ensures i < j <==> Before(AddMonths(d, i), AddMonths(d, j))
  {
  }

  /** Consecutive month offsets are 28 to 31 days apart: the length of the
      month in which the earlier one falls, adjusted for clamping. */
  lemma MonthOffsetSpan(d: Date, n: nat)
    requires ValidDate(d)
    ensures var span := Ordinal(AddMonths(d, n + 1)) - Ordinal(AddMonths(d, n));
            28 <= span <= 31
  {
    ClampedStep(AddMonths(d, n), AddMonths(d, n + 1), d.day);
  }

  /** From day `day` of one month to day `day` of the next, each clamped to
      its month's length, is 28 to 31 days. */
  lemma ClampedStep(a: Date, b: Date, day: int)
    requires ValidDate(a) && ValidDate(b) && 1 <= day <= 31
    requires MonthIndex(b) == MonthIndex(a) + 1
    requires a.day == Min(day, DaysInMonth(a.year, a.month))
    requires b.day == Min(day, DaysInMonth(b.year, b.month))
    ensures 28 <= Ordinal(b) - Ordinal(a) <= 31
  {
    NextMonthOrdinal(a, b);
    ClampedSpan(day, DaysInMonth(a.year, a.month), DaysInMonth(b.year, b.month));
  }

  /** From day `day` (clamped) of a month of `len` days to day `day` (clamped)
      of the following month of `next` days. */
  lemma ClampedSpan(day: int, len: int, next: int)
    requires 1 <= day <= 31 && 28 <= len <= 31 && 28 <= next <= 31
    ensures 28 <= len + Min(day, next) - Min(day, len) <= 31
  {
  }
}
