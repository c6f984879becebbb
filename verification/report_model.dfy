/** Reporting options of the user report: the symbolic date range, the
    page-size and date-range checks shared by every report, the sort-column
    whitelist of the user report, and the projection of a fetched row to
    the public report row. */
module Model {
  import opened Wrappers
  import opened Calendar

  const ReportDurationLast30Days: string := "last_30_days"
  const ReportDurationPreviousMonth: string := "previous_month"
  const ReportDurationLast6Months: string := "last_6_months"

  const ReportingMaxPageSize: int := 100

  /** The columns a user report may be sorted by, matched exactly. */
  const UserReportSortColumns: seq<string> :=
    ["CreateAt", "Username", "FirstName", "LastName", "Nickname", "Email", "Roles"]

  const StatusBadRequest: int := 400

  /** The display-name preference the user report uses. */
  const ShowNicknameFullName: string := "nickname_full_name"

  /** An application error: where it was raised, its translation id and the
      HTTP status it renders as. */
  datatype AppError = AppError(where: string, id: string, statusCode: int)

  const InvalidPageSizeError: AppError :=
    AppError("ReportingBaseOptions.IsValid", "app.user.get_users_for_reporting.invalid_page_size", StatusBadRequest)
  const BadDateRangeError: AppError :=
    AppError("ReportingBaseOptions.IsValid", "app.user.get_users_for_reporting.bad_date_range", StatusBadRequest)
  const InvalidSortColumnError: AppError :=
    AppError("UserReportOptions.IsValid", "app.user.get_user_report.invalid_sort_column", StatusBadRequest)

  /** Start and end of a report's date range in Unix milliseconds; an end of
      0 means "no upper bound". */
  datatype DateBounds = DateBounds(startAt: int, endAt: int)

  /** Midnight on the first day of `now`'s month. */
  function StartOfMonth(now: Civil): (s: Civil)
    ensures MonthIndex(s.year, s.month) == MonthIndex(now.year, now.month)
    ensures now.Valid() ==> s.Valid() && !Before(now, s)
  {
    Civil(now.year, now.month, 1, 0)
  }

  /** Midnight on the first day of the month before `now`'s; January rolls
      back to December of the previous year. */
  function PreviousMonthStart(now: Civil): (p: Civil)
    ensures MonthIndex(p.year, p.month) == MonthIndex(now.year, now.month) - 1
    ensures 1 <= now.month <= 12 ==> p.Valid()
  {
    if now.month == 1 then Civil(now.year - 1, 12, 1, 0) else Civil(now.year, now.month - 1, 1, 0)
  }

  /** The bounds `PopulateDateRange` stores for a duration code at `now`. */
  function DateRangeBounds(dateRange: string, now: Civil, zone: Zone): (b: DateBounds)
    ensures (dateRange != ReportDurationLast30Days && dateRange != ReportDurationPreviousMonth
             && dateRange != ReportDurationLast6Months) ==> b == DateBounds(0, 0)
    ensures dateRange != ReportDurationPreviousMonth ==> b.endAt == 0
  {
    if dateRange == ReportDurationLast30Days then
      DateBounds(UnixMilli(AddDate(now, 0, 0, -30), zone), 0)
    else if dateRange == ReportDurationPreviousMonth then
      var startOfMonth := StartOfMonth(now);
      DateBounds(UnixMilli(AddDate(startOfMonth, 0, -1, 0), zone), UnixMilli(LocalMillis(startOfMonth), zone))
    else if dateRange == ReportDurationLast6Months then
      DateBounds(UnixMilli(AddDate(now, 0, -6, 0), zone), 0)
    else
      DateBounds(0, 0)
  }

  /** Going back one month from the start of `now`'s month with Go's month
      normalisation lands on the explicit rollback of `PreviousMonthStart`. */
  lemma PreviousMonthRollback(now: Civil)
    ensures AddDate(StartOfMonth(now), 0, -1, 0) == LocalMillis(PreviousMonthStart(now))
  {
    var p := PreviousMonthStart(now);
    assert MonthIndex(p.year, p.month) == MonthIndex(now.year, now.month - 1);
  }

  /** `last_30_days` starts exactly 30 days of milliseconds before `now` and
      is open-ended. */
  lemma Last30DaysBounds(now: Civil, zone: Zone)
    ensures DateRangeBounds(ReportDurationLast30Days, now, zone)
         == DateBounds(UnixMilli(LocalMillis(now), zone) - 30 * MsPerDay, 0)
  {
  }

  /** `last_6_months` starts on `now`'s day and time six months earlier
      (a day past the end of that month overflows forward), between 181 and
      184 days before `now`, and is open-ended. */
  lemma Last6MonthsBounds(now: Civil, zone: Zone)
    ensures var b := DateRangeBounds(ReportDurationLast6Months, now, zone);
            var nowMs := UnixMilli(LocalMillis(now), zone);
            && b.startAt == UnixMilli(Date(now.year, now.month - 6, now.day, now.msOfDay), zone)
            && b.endAt == 0
            && nowMs - 184 * MsPerDay <= b.startAt <= nowMs - 181 * MsPerDay
  {
    var k := MonthIndex(now.year, now.month);
    SixMonthsBackInDays(now);
    SixMonthSpan(k);
    SpanToMillis(FirstDay(k) - FirstDay(k - 6));
  }

  lemma SixMonthsBackInDays(now: Civil)
    ensures var k := MonthIndex(now.year, now.month);
            LocalMillis(now) - AddDate(now, 0, -6, 0) == (FirstDay(k) - FirstDay(k - 6)) * MsPerDay
  {
    var k := MonthIndex(now.year, now.month);
    assert MonthIndex(now.year, now.month - 6) == k - 6;
  }

  /** Scales the day bounds of `SixMonthSpan` to milliseconds. */
  lemma SpanToMillis(days: int)
    requires 181 <= days <= 184
    ensures 181 * MsPerDay <= days * MsPerDay <= 184 * MsPerDay
  {
  }

  /** The `previous_month` bounds in Unix milliseconds are the first days of
      the month before `now`'s and of `now`'s month. */
  lemma PreviousMonthInDays(now: Civil, zone: Zone)
    ensures var b := DateRangeBounds(ReportDurationPreviousMonth, now, zone);
            var k := MonthIndex(now.year, now.month);
            && b.startAt == UnixMilli(FirstDay(k - 1) * MsPerDay, zone)
            && b.endAt == UnixMilli(FirstDay(k) * MsPerDay, zone)
  {
    var k := MonthIndex(now.year, now.month);
    assert MonthIndex(now.year, now.month - 1) == k - 1;
  }

  /** `previous_month` is the half-open interval from the first instant of
      the previous month to the first instant of `now`'s month: it is
      non-empty, as long as that month, and ends no later than `now`. */
  lemma PreviousMonthBounds(now: Civil, zone: Zone)
    requires now.Valid()
    ensures var b := DateRangeBounds(ReportDurationPreviousMonth, now, zone);
            var p := PreviousMonthStart(now);
            && b.startAt == UnixMilli(LocalMillis(p), zone)
            && b.endAt == UnixMilli(LocalMillis(StartOfMonth(now)), zone)
            && b.endAt - b.startAt == DaysIn(p.year, p.month) * MsPerDay
            && b.startAt < b.endAt <= UnixMilli(LocalMillis(now), zone)
  {
    var k := MonthIndex(now.year, now.month);
    var p := PreviousMonthStart(now);
    PreviousMonthRollback(now);
    PreviousMonthInDays(now, zone);
    PreviousMonthLength(now);
    WithinMonth(now);
  }

  /** The month before `now`'s lasts `DaysIn` of it. */
  lemma PreviousMonthLength(now: Civil)
    requires now.Valid()
    ensures var k := MonthIndex(now.year, now.month);
            var p := PreviousMonthStart(now);
            FirstDay(k) * MsPerDay - FirstDay(k - 1) * MsPerDay == DaysIn(p.year, p.month) * MsPerDay
  {
    var k := MonthIndex(now.year, now.month);
    var p := PreviousMonthStart(now);
    assert MonthIndex(p.year, p.month) == k - 1;
    FirstDayStep(k - 1);
    assert (k - 1) / 12 == p.year && (k - 1) % 12 + 1 == p.month;
  }

  /** A valid time falls inside the `previous_month` interval exactly when
      it lies in the calendar month before `now`'s. */
  lemma PreviousMonthCovers(now: Civil, zone: Zone, t: Civil)
    requires now.Valid() && t.Valid()
    ensures var b := DateRangeBounds(ReportDurationPreviousMonth, now, zone);
            var p := PreviousMonthStart(now);
            b.startAt <= UnixMilli(LocalMillis(t), zone) < b.endAt <==> t.year == p.year && t.month == p.month
  {
    var k := MonthIndex(now.year, now.month);
    PreviousMonthInDays(now, zone);
    InMonthInterval(t, k - 1);
    assert k - 1 + 1 == k;
    PreviousMonthIndex(now, t);
  }

  lemma PreviousMonthIndex(now: Civil, t: Civil)
    requires now.Valid() && t.Valid()
    ensures var p := PreviousMonthStart(now);
            MonthIndex(t.year, t.month) == MonthIndex(now.year, now.month) - 1 <==> t.year == p.year && t.month == p.month
  {
  }

  /** Whatever the code, the stored bounds pass the date-range check: the
      end is open (0) or the start is not after it. */
  lemma DateRangeBoundsOrdered(dateRange: string, now: Civil, zone: Zone)
    ensures var b := DateRangeBounds(dateRange, now, zone);
            !(b.endAt > 0 && b.startAt > b.endAt)
  {
    if dateRange == ReportDurationPreviousMonth {
      PreviousMonthOrdered(now, zone);
    }
  }

  lemma PreviousMonthOrdered(now: Civil, zone: Zone)
    ensures var b := DateRangeBounds(ReportDurationPreviousMonth, now, zone);
            b.startAt < b.endAt
  {
    PreviousMonthInDays(now, zone);
    MonthStartsIncrease(MonthIndex(now.year, now.month) - 1);
  }

  /** The fixed dates of the date-range examples: from 2024-03-15 the
      previous month is February 2024, thirty days back is 2024-02-14 and six
      months back is 2023-09-15; unknown codes and "" give no range. */
  lemma DateRangeExamples(zone: Zone)
    ensures var now := Civil(2024, 3, 15, 0);
            && DateRangeBounds(ReportDurationPreviousMonth, now, zone)
               == DateBounds(UnixMilli(LocalMillis(Civil(2024, 2, 1, 0)), zone), UnixMilli(LocalMillis(Civil(2024, 3, 1, 0)), zone))
            && DateRangeBounds(ReportDurationLast30Days, now, zone)
               == DateBounds(UnixMilli(LocalMillis(Civil(2024, 2, 14, 0)), zone), 0)
            && DateRangeBounds(ReportDurationLast6Months, now, zone)
               == DateBounds(UnixMilli(LocalMillis(Civil(2023, 9, 15, 0)), zone), 0)
            && DateRangeBounds("unknown_code", now, zone) == DateBounds(0, 0)
            && DateRangeBounds("", now, zone) == DateBounds(0, 0)
  {
    FirstDayOf(2024, 3);
    FirstDayOf(2024, 2);
  }

  /** January's previous month is December of the year before. */
  lemma PreviousMonthOfJanuary(zone: Zone)
    ensures DateRangeBounds(ReportDurationPreviousMonth, Civil(2024, 1, 10, 0), zone)
         == DateBounds(UnixMilli(LocalMillis(Civil(2023, 12, 1, 0)), zone), UnixMilli(LocalMillis(Civil(2024, 1, 1, 0)), zone))
  {
  }

  /** Six months back from 2024-08-31 is "2024-02-31", which Go's date
      arithmetic carries forward to 2024-03-02 rather than clamping to
      2024-02-29. */
  lemma Last6MonthsOverflowsForward(zone: Zone)
    ensures DateRangeBounds(ReportDurationLast6Months, Civil(2024, 8, 31, 0), zone).startAt
         == UnixMilli(LocalMillis(Civil(2024, 3, 2, 0)), zone)
    ensures DateRangeBounds(ReportDurationLast6Months, Civil(2024, 8, 31, 0), zone).startAt
         != UnixMilli(LocalMillis(Civil(2024, 2, 29, 0)), zone)
  {
    FirstDayOf(2024, 2);
    FirstDayOf(2024, 3);
  }

  /** The whitelist is matched exactly and case-sensitively. */
  lemma SortColumnExamples()
    ensures "Username" in UserReportSortColumns && "CreateAt" in UserReportSortColumns
    ensures "Password" !in UserReportSortColumns && "username" !in UserReportSortColumns
    ensures "" !in UserReportSortColumns
  {
  }

  /** The options every report shares; `PopulateDateRange` fills in the
      date-range fields in place. */
  class ReportingBaseOptions {
    var sortDesc: bool
    var pageSize: int
    var sortColumn: string
    var lastSortColumnValue: string
    var dateRange: string
    var startAt: int
    var endAt: int

    /** A composite literal that leaves `StartAt` and `EndAt` at zero. */
    constructor (sortDesc: bool, pageSize: int, sortColumn: string, lastSortColumnValue: string, dateRange: string)
      ensures this.sortDesc == sortDesc && this.pageSize == pageSize && this.sortColumn == sortColumn
      ensures this.lastSortColumnValue == lastSortColumnValue && this.dateRange == dateRange
      ensures startAt == 0 && endAt == 0
    {
      this.sortDesc := sortDesc;
      this.pageSize := pageSize;
      this.sortColumn := sortColumn;
      this.lastSortColumnValue := lastSortColumnValue;
      this.dateRange := dateRange;
      startAt := 0;
      endAt := 0;
    }

    /** Overwrites `startAt` and `endAt` with the bounds of `dateRange` at
        `now`; nothing else changes, so a second call stores the same values
        and the date-range check passes afterwards. */
    method PopulateDateRange(now: Civil, zone: Zone)
      modifies this
      ensures DateBounds(startAt, endAt) == DateRangeBounds(dateRange, now, zone)
      ensures sortDesc == old(sortDesc) && pageSize == old(pageSize) && sortColumn == old(sortColumn)
      ensures lastSortColumnValue == old(lastSortColumnValue) && dateRange == old(dateRange)
      ensures !(endAt > 0 && startAt > endAt)
      ensures IsValid() == None <==> 0 < pageSize <= ReportingMaxPageSize
    {
      var startAt := 0;
      var endAt := 0;
      if dateRange == ReportDurationLast30Days {
        startAt := UnixMilli(AddDate(now, 0, 0, -30), zone);
      } else if dateRange == ReportDurationPreviousMonth {
        var startOfMonth := StartOfMonth(now);
        startAt := UnixMilli(AddDate(startOfMonth, 0, -1, 0), zone);
        endAt := UnixMilli(LocalMillis(startOfMonth), zone);
      } else if dateRange == ReportDurationLast6Months {
        startAt := UnixMilli(AddDate(now, 0, -6, 0), zone);
      }
      this.startAt := startAt;
      this.endAt := endAt;
      DateRangeBoundsOrdered(dateRange, now, zone);
    }

    /** The page-size check comes first; then the date range, where an end
        of 0 never fails. */
    function IsValid(): (r: Option<AppError>)
      reads this
      ensures r == Some(InvalidPageSizeError) <==> pageSize <= 0 || pageSize > ReportingMaxPageSize
      ensures r == Some(BadDateRangeError) <==>
                0 < pageSize <= ReportingMaxPageSize && endAt > 0 && startAt > endAt
      ensures r == None || r == Some(InvalidPageSizeError) || r == Some(BadDateRangeError)
    {
      if pageSize <= 0 || pageSize > ReportingMaxPageSize then
        Some(InvalidPageSizeError)
      else if endAt > 0 && startAt > endAt then
        Some(BadDateRangeError)
      else
        None
    }
  }

  /** Populating twice with the same `now` stores what populating once
      does. */
  method PopulateDateRangeIsIdempotent(options: ReportingBaseOptions, now: Civil, zone: Zone)
    returns (first: DateBounds, second: DateBounds)
    modifies options
    ensures first == second == DateBounds(options.startAt, options.endAt)
    ensures first == DateRangeBounds(old(options.dateRange), now, zone)
  {
    options.PopulateDateRange(now, zone);
    first := DateBounds(options.startAt, options.endAt);
    options.PopulateDateRange(now, zone);
    second := DateBounds(options.startAt, options.endAt);
  }

  /** The user report's options: the shared options, embedded, and the
      user filters. */
  class UserReportOptions {
    const base: ReportingBaseOptions
    var lastUserId: string
    var role: string
    var team: string
    var hasNoTeam: bool
    var hideActive: bool
    var hideInactive: bool

    constructor (sortDesc: bool, pageSize: int, sortColumn: string, lastSortColumnValue: string, dateRange: string,
                 lastUserId: string, role: string, team: string, hasNoTeam: bool, hideActive: bool, hideInactive: bool)
      ensures fresh(base)
      ensures base.sortDesc == sortDesc && base.pageSize == pageSize && base.sortColumn == sortColumn
      ensures base.lastSortColumnValue == lastSortColumnValue && base.dateRange == dateRange
      ensures base.startAt == 0 && base.endAt == 0
      ensures this.lastUserId == lastUserId && this.role == role && this.team == team
      ensures this.hasNoTeam == hasNoTeam && this.hideActive == hideActive && this.hideInactive == hideInactive
    {
      base := new ReportingBaseOptions(sortDesc, pageSize, sortColumn, lastSortColumnValue, dateRange);
      this.lastUserId := lastUserId;
      this.role := role;
      this.team := team;
      this.hasNoTeam := hasNoTeam;
      this.hideActive := hideActive;
      this.hideInactive := hideInactive;
    }

    /** The shared check's error passes through unchanged; otherwise the sort
        column must be one of the whitelisted columns, exactly. */
    function IsValid(): (r: Option<AppError>)
      reads this, base
      ensures base.IsValid().Some? ==> r == base.IsValid()
      ensures base.IsValid().None? ==> (r == None <==> base.sortColumn in UserReportSortColumns)
      ensures base.IsValid().None? ==> r == None || r == Some(InvalidSortColumnError)
    {
      if base.IsValid().Some? then
        base.IsValid()
      else if base.sortColumn !in UserReportSortColumns then
        Some(InvalidSortColumnError)
      else
        None
    }
  }

  /** The user attributes a report row is built from. */
  datatype User = User(id: string, username: string, email: string, createAt: int, roles: string,
                       nickname: string, firstName: string, lastName: string)

  /** A public report row; the post statistics are opaque here. */
  datatype UserReport<Stats> = UserReport(id: string, username: string, email: string, createAt: int,
                                          displayName: string, roles: string, postStats: Stats)

  /** A fetched row: a user joined with its post statistics. */
  datatype UserReportQuery<Stats> = UserReportQuery(user: User, postStats: Stats) {

    /** Copies the identifying fields and the statistics unchanged; the
        display name is the user's under the nickname-or-full-name
        preference, as `getDisplayName` resolves it. */
    function ToReport(getDisplayName: (User, string) -> string): (r: UserReport<Stats>)
      ensures r.id == user.id && r.username == user.username && r.email == user.email
      ensures r.createAt == user.createAt && r.roles == user.roles && r.postStats == postStats
      ensures r.displayName == getDisplayName(user, ShowNicknameFullName)
    {
      UserReport(user.id, user.username, user.email, user.createAt,
                 getDisplayName(user, ShowNicknameFullName), user.roles, postStats)
    }
  }
}
