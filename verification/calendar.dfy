/** The part of Go's `time` package that the reporting date ranges use:
    `time.Date` with its month normalisation, `Time.AddDate`, and
    `Time.UnixMilli`, over the proleptic Gregorian calendar.

    An instant is first computed as LOCAL wall-clock milliseconds since
    1970-01-01T00:00 local (`Date`), then turned into Unix milliseconds by
    subtracting the zone's fixed offset (`UnixMilli`). */
module Calendar {

  const MsPerDay: int := 86_400_000

  /** Days from 0001-01-01 to 1970-01-01 in the proleptic Gregorian calendar. */
  const UnixEpochDay: int := 719_162

  /** A broken-down local time, as returned by `Year()`, `Month()`, `Day()`
      and the clock of a `time.Time`, to millisecond precision. */
  datatype Civil = Civil(year: int, month: int, day: int, msOfDay: int) {
    predicate Valid() {
      1 <= month <= 12 && 1 <= day <= DaysIn(year, month) && 0 <= msOfDay < MsPerDay
    }
  }

  /** A location with a fixed offset east of UTC, in seconds. */
  datatype Zone = FixedZone(offsetSeconds: int)

  predicate IsLeap(year: int) {
    year % 4 == 0 && (year % 100 != 0 || year % 400 == 0)
  }

  function DaysIn(year: int, month: int): (n: int)
    requires 1 <= month <= 12
    ensures 28 <= n <= 31
  {
    if month == 2 then (if IsLeap(year) then 29 else 28)
    else if month == 4 || month == 6 || month == 9 || month == 11 then 30
    else 31
  }

  /** Days of a common year before the first of `month` (Go's `daysBefore`). */
  function CommonDaysBefore(month: int): int
    requires 1 <= month <= 12
  {
    if month <= 6 then
      if month == 1 then 0 else if month == 2 then 31 else if month == 3 then 59
      else if month == 4 then 90 else if month == 5 then 120 else 151
    else
      if month == 7 then 181 else if month == 8 then 212 else if month == 9 then 243
      else if month == 10 then 273 else if month == 11 then 304 else 334
  }

  /** Days in `year` before the first of `month`. */
  function DaysBefore(year: int, month: int): int
    requires 1 <= month <= 12
  {
    CommonDaysBefore(month) + if IsLeap(year) && month >= 3 then 1 else 0
  }

  /** Days from 0001-01-01 to the first of January of `year`. */
  function DaysBeforeYear(year: int): int {
    var p := year - 1;
    365 * p + p / 4 - p / 100 + p / 400
  }

  /** Days since 1970-01-01 of the given day of a month. `day` may lie
      outside the month: Go's `time.Date` lets it overflow linearly. */
  function DayNumber(year: int, month: int, day: int): int
    requires 1 <= month <= 12
  {
    DaysBeforeYear(year) - UnixEpochDay + DaysBefore(year, month) + day - 1
  }

  /** Go's `norm(hi, lo, 12)` for a year and a zero-based month: carries
      whole years out of `lo` so that it lands in [0, 12). */
  function NormMonth(hi: int, lo: int): (r: (int, int))
    ensures 0 <= r.1 < 12
    ensures r.0 * 12 + r.1 == hi * 12 + lo
  {
    var first := if lo < 0 then var n := (-lo - 1) / 12 + 1; (hi - n, lo + n * 12) else (hi, lo);
    if first.1 >= 12 then var n := first.1 / 12; (first.0 + n, first.1 - n * 12) else first
  }

  /** `time.Date(year, month, day, ...)` as local milliseconds. The month is
      carried into the year by floor division, as Go's `norm` does (see
      `NormMonthIsFloorDivision`), so only the absolute month index matters;
      the day is added as a day count. */
  function Date(year: int, month: int, day: int, msOfDay: int): int {
    (FirstDay(MonthIndex(year, month)) + day - 1) * MsPerDay + msOfDay
  }

  /** `t.AddDate(years, months, days)` as local milliseconds. */
  function AddDate(t: Civil, years: int, months: int, days: int): int {
    Date(t.year + years, t.month + months, t.day + days, t.msOfDay)
  }

  /** The local milliseconds of a broken-down time. */
  function LocalMillis(t: Civil): int {
    Date(t.year, t.month, t.day, t.msOfDay)
  }

  /** `UnixMilli()` of an instant given by its local milliseconds. */
  function UnixMilli(local: int, zone: Zone): int {
    local - zone.offsetSeconds * 1000
  }

  /** Months since January of year 0. */
  function MonthIndex(year: int, month: int): int {
    12 * year + month - 1
  }

  /** Index of January 1970, the month the day numbers count from. */
  const UnixEpochMonth: int := 12 * 1970

  /** Day number of the first day of the month with index `k`: each month
      starts its predecessor's length after the predecessor starts. */
  function FirstDay(k: int): int
    decreases if k >= UnixEpochMonth then k - UnixEpochMonth else UnixEpochMonth - k
  {
    if k == UnixEpochMonth then 0
    else if k > UnixEpochMonth then FirstDay(k - 1) + DaysIn((k - 1) / 12, (k - 1) % 12 + 1)
    else FirstDay(k + 1) - DaysIn(k / 12, k % 12 + 1)
  }

  /** Strict lexicographic order on broken-down times. */
  predicate Before(a: Civil, b: Civil) {
    || a.year < b.year
    || (a.year == b.year && a.month < b.month)
    || (a.year == b.year && a.month == b.month && a.day < b.day)
    || (a.year == b.year && a.month == b.month && a.day == b.day && a.msOfDay < b.msOfDay)
  }

  /** The three steps of `DaysBeforeYear`'s leap-day count from one year to
      the next, used by `YearLength`. */
  lemma DivStep4(y: int)
    ensures y / 4 - (y - 1) / 4 == if y % 4 == 0 then 1 else 0
  {
  }

  lemma DivStep100(y: int)
    ensures y / 100 - (y - 1) / 100 == if y % 100 == 0 then 1 else 0
  {
  }

  lemma DivStep400(y: int)
    ensures y / 400 - (y - 1) / 400 == if y % 400 == 0 then 1 else 0
  {
  }

  /** Divisibility facts behind `DivisibilityChain`. */
  lemma MultipleOf100(y: int, c: int)
    requires y == 100 * c
    ensures y % 100 == 0
  {
  }

  lemma MultipleOf4(y: int, c: int)
    requires y == 4 * c
    ensures y % 4 == 0
  {
  }

  /** A multiple of 400 is a multiple of 100, which is a multiple of 4. */
  lemma DivisibilityChain(y: int)
    ensures y % 400 == 0 ==> y % 100 == 0
    ensures y % 100 == 0 ==> y % 4 == 0
  {
    if y % 400 == 0 {
      MultipleOf100(y, 4 * (y / 400));
    }
    if y % 100 == 0 {
      MultipleOf4(y, 25 * (y / 100));
    }
  }

  /** A Gregorian year has 366 days exactly when it is a leap year. */
  lemma YearLength(year: int)
    ensures DaysBeforeYear(year + 1) == DaysBeforeYear(year) + (if IsLeap(year) then 366 else 365)
  {
    DivStep4(year);
    DivStep100(year);
    DivStep400(year);
    DivisibilityChain(year);
  }

  lemma DaysBeforeStep(year: int, month: int)
    requires 1 <= month < 12
    ensures DaysBefore(year, month + 1) == DaysBefore(year, month) + DaysIn(year, month)
  {
  }

  /** Each month starts exactly its predecessor's length after it, across
      year boundaries too. */
  lemma FirstDayStep(k: int)
    ensures FirstDay(k + 1) == FirstDay(k) + DaysIn(k / 12, k % 12 + 1)
  {
  }

  /** The closed day-number formula takes the same step from one month to
      the next. */
  lemma DayNumberStep(k: int)
    ensures DayNumber((k + 1) / 12, (k + 1) % 12 + 1, 1) == DayNumber(k / 12, k % 12 + 1, 1) + DaysIn(k / 12, k % 12 + 1)
  {
    var y, m := k / 12, k % 12 + 1;
    if m < 12 {
      assert (k + 1) / 12 == y && (k + 1) % 12 + 1 == m + 1;
      DaysBeforeStep(y, m);
    } else {
      assert (k + 1) / 12 == y + 1 && (k + 1) % 12 + 1 == 1;
      YearLength(y);
    }
  }

  /** A month starts, in milliseconds, before the next one. */
  lemma MonthStartsIncrease(k: int)
    ensures FirstDay(k) * MsPerDay < FirstDay(k + 1) * MsPerDay
  {
    FirstDayStep(k);
    ScaleByDay(FirstDay(k) + 1, FirstDay(k + 1));
  }

  /** Month starts are strictly increasing: `j - i` months span between
      28 and 31 days per month. */
  lemma {:induction false} FirstDayMonotone(i: int, j: int)
    requires i <= j
    ensures FirstDay(i) + 28 * (j - i) <= FirstDay(j) <= FirstDay(i) + 31 * (j - i)
    decreases j - i
  {
    if i < j {
      FirstDayMonotone(i, j - 1);
      FirstDayStep(j - 1);
    }
  }

  /** The month-by-month count agrees with the closed formula: days before
      the year plus days before the month. */
  lemma FirstDayFormula(k: int)
    ensures FirstDay(k) == DayNumber(k / 12, k % 12 + 1, 1)
  {
    if k >= UnixEpochMonth {
      FormulaAbove(k);
    } else {
      FormulaBelow(k);
    }
  }

  lemma {:induction false} FormulaAbove(k: int)
    requires k >= UnixEpochMonth
    ensures FirstDay(k) == DayNumber(k / 12, k % 12 + 1, 1)
    decreases k - UnixEpochMonth
  {
    if k > UnixEpochMonth {
      FormulaAbove(k - 1);
      FormulaUp(k);
    } else {
      EpochDayNumber();
    }
  }

  lemma {:induction false} FormulaBelow(k: int)
    requires k <= UnixEpochMonth
    ensures FirstDay(k) == DayNumber(k / 12, k % 12 + 1, 1)
    decreases UnixEpochMonth - k
  {
    if k < UnixEpochMonth {
      FormulaBelow(k + 1);
      FormulaDown(k);
    } else {
      EpochDayNumber();
    }
  }

  lemma EpochDayNumber()
    ensures FirstDay(UnixEpochMonth) == DayNumber(UnixEpochMonth / 12, UnixEpochMonth % 12 + 1, 1)
  {
  }

  /** The formula carries from one month to the next ... */
  lemma FormulaUp(k: int)
    requires FirstDay(k - 1) == DayNumber((k - 1) / 12, (k - 1) % 12 + 1, 1)
    ensures FirstDay(k) == DayNumber(k / 12, k % 12 + 1, 1)
  {
    FirstDayStep(k - 1);
    DayNumberStep(k - 1);
  }

  /** ... and back to the month before. */
  lemma FormulaDown(k: int)
    requires FirstDay(k + 1) == DayNumber((k + 1) / 12, (k + 1) % 12 + 1, 1)
    ensures FirstDay(k) == DayNumber(k / 12, k % 12 + 1, 1)
  {
    FirstDayStep(k);
    DayNumberStep(k);
  }

  /** `FirstDay` of a month given by year and month number. */
  lemma FirstDayOf(year: int, month: int)
    requires 1 <= month <= 12
    ensures FirstDay(MonthIndex(year, month)) == DayNumber(year, month, 1)
  {
    var k := MonthIndex(year, month);
    FirstDayFormula(k);
    assert k / 12 == year && k % 12 == month - 1;
  }

  /** Go's `norm` is floor division by 12, so `Date` is what `time.Date`
      computes: normalise the month into the year, then count days from
      the normalised year and month. */
  lemma NormMonthIsFloorDivision(year: int, month: int, day: int, msOfDay: int)
    ensures var k := MonthIndex(year, month);
            NormMonth(year, month - 1) == (k / 12, k % 12)
    ensures var ym := NormMonth(year, month - 1);
            Date(year, month, day, msOfDay) == DayNumber(ym.0, ym.1 + 1, day) * MsPerDay + msOfDay
  {
    var ym := NormMonth(year, month - 1);
    var k := MonthIndex(year, month);
    FirstDayFormula(k);
    assert k == 12 * ym.0 + ym.1;
    assert k / 12 == ym.0 && k % 12 == ym.1;
  }

  /** A valid broken-down time lies inside its own month. */
  lemma WithinMonth(t: Civil)
    requires t.Valid()
    ensures FirstDay(MonthIndex(t.year, t.month)) * MsPerDay <= LocalMillis(t)
    ensures LocalMillis(t) < FirstDay(MonthIndex(t.year, t.month) + 1) * MsPerDay
  {
    var k := MonthIndex(t.year, t.month);
    FirstDayStep(k);
    assert k / 12 == t.year && k % 12 + 1 == t.month;
  }

  /** Two valid times in the same month compare by day and time of day;
      otherwise by their months. */
  lemma MonthIndexOrder(a: Civil, b: Civil)
    requires a.Valid() && b.Valid()
    ensures MonthIndex(a.year, a.month) < MonthIndex(b.year, b.month) ==> Before(a, b)
    ensures MonthIndex(a.year, a.month) == MonthIndex(b.year, b.month) ==> a.year == b.year && a.month == b.month
  {
  }

  /** A valid time ends before any later month starts. */
  lemma BeforeLaterMonth(a: Civil, k: int)
    requires a.Valid()
    requires MonthIndex(a.year, a.month) < k
    ensures LocalMillis(a) < FirstDay(k) * MsPerDay
  {
    var ka := MonthIndex(a.year, a.month);
    WithinMonth(a);
    FirstDayMonotone(ka + 1, k);
    ScaleByDay(FirstDay(ka + 1), FirstDay(k));
  }

  /** A valid time starts no earlier than any month up to its own. */
  lemma AfterEarlierMonth(a: Civil, k: int)
    requires a.Valid()
    requires k <= MonthIndex(a.year, a.month)
    ensures FirstDay(k) * MsPerDay <= LocalMillis(a)
  {
    var ka := MonthIndex(a.year, a.month);
    WithinMonth(a);
    FirstDayMonotone(k, ka);
    ScaleByDay(FirstDay(k), FirstDay(ka));
  }

  /** A valid time lies between the starts of month `k` and month `k + 1`
      exactly when it is in month `k`. */
  lemma InMonthInterval(t: Civil, k: int)
    requires t.Valid()
    ensures FirstDay(k) * MsPerDay <= LocalMillis(t) < FirstDay(k + 1) * MsPerDay
            <==> MonthIndex(t.year, t.month) == k
  {
    var kt := MonthIndex(t.year, t.month);
    if kt < k {
      BeforeLaterMonth(t, k);
    } else if kt > k {
      AfterEarlierMonth(t, k + 1);
    } else {
      WithinMonth(t);
    }
  }

  /** A valid time in an earlier month is earlier in milliseconds. */
  lemma EarlierMonthEarlierMillis(a: Civil, b: Civil)
    requires a.Valid() && b.Valid()
    requires MonthIndex(a.year, a.month) < MonthIndex(b.year, b.month)
    ensures LocalMillis(a) < LocalMillis(b)
  {
    BeforeLaterMonth(a, MonthIndex(b.year, b.month));
    WithinMonth(b);
  }

  /** Turns an order on day numbers into one on milliseconds. */
  lemma ScaleByDay(x: int, y: int)
    requires x <= y
    ensures x * MsPerDay <= y * MsPerDay
  {
  }

  /** Two valid times in the same month compare by day, then time of day. */
  lemma SameMonthMillis(a: Civil, b: Civil)
    requires a.Valid() && b.Valid()
    requires a.year == b.year && a.month == b.month
    ensures Before(a, b) <==> LocalMillis(a) < LocalMillis(b)
  {
    assert LocalMillis(b) - LocalMillis(a) == (b.day - a.day) * MsPerDay + (b.msOfDay - a.msOfDay);
  }

  /** The conversion to milliseconds is strictly monotone in calendar
      order, in both directions, on valid broken-down times. */
  lemma LocalMillisMonotone(a: Civil, b: Civil)
    requires a.Valid() && b.Valid()
    ensures Before(a, b) <==> LocalMillis(a) < LocalMillis(b)
  {
    var ka, kb := MonthIndex(a.year, a.month), MonthIndex(b.year, b.month);
    MonthIndexOrder(a, b);
    MonthIndexOrder(b, a);
    if ka < kb {
      EarlierMonthEarlierMillis(a, b);
    } else if kb < ka {
      EarlierMonthEarlierMillis(b, a);
    } else {
      SameMonthMillis(a, b);
    }
  }

  /** Any six consecutive months hold between 181 and 184 days. */
  lemma SixMonthSpan(k: int)
    ensures 181 <= FirstDay(k) - FirstDay(k - 6) <= 184
  {
    var y, m := k / 12, k % 12 + 1;
    assert k == MonthIndex(y, m);
    SixMonthsBefore(y, m);
  }

  lemma SixMonthsBefore(y: int, m: int)
    requires 1 <= m <= 12
    ensures 181 <= FirstDay(MonthIndex(y, m)) - FirstDay(MonthIndex(y, m) - 6) <= 184
  {
    FirstDayOf(y, m);
    if m > 6 {
      SixMonthsBackSameYear(y, m);
      SpanWithinYear(y, m);
    } else {
      SixMonthsBackPreviousYear(y, m);
      YearLength(y - 1);
      SpanAcrossYear(y, m);
    }
  }

  lemma SixMonthsBackSameYear(y: int, m: int)
    requires 6 < m <= 12
    ensures FirstDay(MonthIndex(y, m) - 6) == DayNumber(y, m - 6, 1)
  {
    assert MonthIndex(y, m) - 6 == MonthIndex(y, m - 6);
    FirstDayOf(y, m - 6);
  }

  lemma SixMonthsBackPreviousYear(y: int, m: int)
    requires 1 <= m <= 6
    ensures FirstDay(MonthIndex(y, m) - 6) == DayNumber(y - 1, m + 6, 1)
  {
    assert MonthIndex(y, m) - 6 == MonthIndex(y - 1, m + 6);
    FirstDayOf(y - 1, m + 6);
  }

  lemma SpanWithinYear(y: int, m: int)
    requires 6 < m <= 12
    ensures 181 <= DaysBefore(y, m) - DaysBefore(y, m - 6) <= 184
  {
    if m == 7 {} else if m == 8 {} else if m == 9 {} else if m == 10 {} else if m == 11 {} else {}
  }

  lemma SpanAcrossYear(y: int, m: int)
    requires 1 <= m <= 6
    ensures 181 <= (if IsLeap(y - 1) then 366 else 365) + DaysBefore(y, m) - DaysBefore(y - 1, m + 6) <= 184
  {
    if m == 1 {} else if m == 2 {} else if m == 3 {} else if m == 4 {} else if m == 5 {} else {}
  }
}
