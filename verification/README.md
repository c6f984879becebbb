# Reporting options of Mattermost's "users for reporting" endpoint

This project models how Mattermost's admin endpoint `GET /reports/users`
prepares its query options, and proves properties of that model. The endpoint:

- reads the sort column, sort direction, page size, cursor, date-range code
  and user filters from the request's query string;
- rejects a malformed team filter, and rejects asking to hide both active and
  inactive users;
- turns the symbolic date-range code (`last_30_days`, `previous_month`,
  `last_6_months`, anything else) into start and end bounds in Unix
  milliseconds, overwriting the options' `StartAt`/`EndAt` in place;
- checks options with `IsValid`: page size in 1..100, a date range that is
  not inverted (an end of 0 means "open-ended"), and a sort column from a
  fixed, case-sensitive whitelist;
- projects each fetched user row to a public report row.

Files:

- `wrappers.dfy` (module `Wrappers`): `Option` and `Result`.
- `calendar.dfy` (module `Calendar`): the calendar arithmetic of Go's `time`
  package that the date ranges rely on. It covers `time.Date`, which carries
  months into years and lets an out-of-range day overflow into the next month,
  and it covers `AddDate` and `UnixMilli`, all on the proleptic Gregorian
  calendar. The first day of each month is counted month by month from
  January 1970 (`FirstDay`), and the model proves that this count equals the
  closed day-number formula (`FirstDayFormula`). The conversion to
  milliseconds is concrete, and the model proves that it is strictly
  monotone in calendar order (`LocalMillisMonotone`) rather than assuming it.
- `report_model.dfy` (module `Model`): `server/public/model/report.go`.
  - `ReportingBaseOptions` is a class, so `PopulateDateRange` changes its
    fields in place.
  - `UserReportOptions` is a class. It embeds a `base` object that its
    constructor creates, standing in for Go's struct embedding.
  - `DateRangeBounds` is the pure specification of `PopulateDateRange`.
- `report_api.dfy` (module `Api`): the parameter handling of
  `getUsersForReporting` in `server/channels/api4/report.go`, up to the
  `PopulateDateRange` call.
  - A query is a map from each key to its values. `QueryGet` returns the
    first value, or `""`, as `url.Values.Get` does.
  - `model.IsValidId` and `strconv.ParseInt` are function parameters: a
    predicate and a parser returning `Option<int>`.
  - The handler never calls `IsValid`. `GetUsersForReporting` returns the
    options it would hand to the application layer, and its last
    postcondition says what `IsValid` would answer on those options.

Go's `AddDate` carries an out-of-range day into the next month and does
not clamp it to the target month's last day: `Last6MonthsOverflowsForward`
shows that six months back from 2024-08-31 is 2024-03-02, not 2024-02-29.

## Model

| member | source | states |
|---|---|---|
| `Calendar.DaysIn` | server/public/model/report.go:41-47 | the length of a month in Go's calendar: 29 days for February of a leap year, 28 for other Februaries, 30 for April, June, September and November, 31 otherwise; always 28 to 31 |
| `Calendar.FirstDay` | server/public/model/report.go:41-47 | the day number (days since 1970-01-01) of the first day of month index `k`, each month starting its predecessor's length after the predecessor starts |
| `Calendar.Date` | server/public/model/report.go:41-47 | `time.Date(year, month, day, clock)` in local milliseconds: the month is carried into the year, the day counts on from the first of that month, overflow included |
| `Calendar.AddDate` | server/public/model/report.go:41-47 | `t.AddDate(years, months, days)`: `time.Date` applied to the shifted year, month and day with `t`'s clock |
| `Calendar.LocalMillis` | server/public/model/report.go:41-47 | the local milliseconds of a broken-down time, `time.Date` of its own fields |
| `Calendar.UnixMilli` | server/public/model/report.go:41-47 | `UnixMilli()` of a local instant: its local milliseconds minus the zone's offset |
| `Calendar.NormMonth` | server/public/model/report.go:44-47 | the month normalisation behind `AddDate(0, -1, 0)` and `AddDate(0, -6, 0)` yields a month in 0..11 and keeps the absolute month count `12*year + month` unchanged |
| `Calendar.YearLength` | server/public/model/report.go:41-47 | consecutive January firsts are 366 days apart in a Gregorian leap year and 365 days apart otherwise |
| `Calendar.DayNumberStep` | server/public/model/report.go:43-45 | in the closed day-number formula, each month starts exactly its predecessor's length (28 to 31 days) after the predecessor's start, across year boundaries too |
| `Calendar.FirstDayMonotone` | server/public/model/report.go:43-47 | month starts strictly increase: `j - i` months span between `28*(j-i)` and `31*(j-i)` days |
| `Calendar.NormMonthIsFloorDivision` | server/public/model/report.go:41-47 | the month normalisation of `time.Date` is floor division by 12, so the instant `Date` gives equals the day count from the normalised year and month |
| `Calendar.FirstDayFormula` | server/public/model/report.go:41-47 | counting month lengths from January 1970 gives the closed day-number formula (days before the year plus days before the month) for every month, before 1970 too |
| `Calendar.LocalMillisMonotone` | server/public/model/report.go:41-47 | on valid calendar values, the conversion to milliseconds is strictly monotone in calendar order, in both directions |
| `Calendar.InMonthInterval` | server/public/model/report.go:42-45 | a valid time lies between the first instants of month `k` and month `k + 1` exactly when it is in month `k` |
| `Calendar.SixMonthSpan` | server/public/model/report.go:47 | any six consecutive months hold between 181 and 184 days |
| `Model.DateRangeBounds` | server/public/model/report.go:36-52 | any code other than the three constants, `""` included, gives `(0, 0)`; only `previous_month` sets a non-zero end |
| `Model.StartOfMonth` | server/public/model/report.go:43 | `time.Date(now.Year(), now.Month(), 1, 0, 0, 0, 0, time.Local)`: midnight on the first of `now`'s month, a valid time in `now`'s month that does not come after `now` |
| `Model.PreviousMonthStart` | server/public/model/report.go:43-44 | midnight on the first of the month before `now`'s, January rolling back to December of the previous year; a valid time whose month index is one less than `now`'s |
| `Model.PreviousMonthRollback` | server/public/model/report.go:43-44 | going back one month from the first of `now`'s month lands on the first of the month before, and January rolls back to December of the previous year |
| `Model.Last30DaysBounds` | server/public/model/report.go:40-41 | `last_30_days` starts exactly 30 days before `now` and has end 0 |
| `Model.Last6MonthsBounds` | server/public/model/report.go:46-47 | `last_6_months` starts on `now`'s day and time six months earlier, between 181 and 184 days before `now`, and has end 0 |
| `Model.PreviousMonthBounds` | server/public/model/report.go:42-45 | `previous_month` starts at the first instant of the previous month and ends at the first instant of `now`'s month; the interval is as long as that month, has start before end, and ends no later than `now` |
| `Model.PreviousMonthCovers` | server/public/model/report.go:42-45 | a valid time lies in `[StartAt, EndAt)` of `previous_month` exactly when it falls in the calendar month before `now`'s |
| `Model.DateRangeBoundsOrdered` | server/public/model/report.go:36-63 | for every code, the bounds `PopulateDateRange` stores pass the date-range check of `IsValid` |
| `Model.DateRangeExamples` | server/public/model/report.go:36-52 | from 2024-03-15: `previous_month` spans Feb 1 to Mar 1, `last_30_days` starts 2024-02-14, `last_6_months` starts 2023-09-15, and `"unknown_code"` and `""` give `(0, 0)` |
| `Model.PreviousMonthOfJanuary` | server/public/model/report.go:43-45 | from 2024-01-10, `previous_month` spans 2023-12-01 to 2024-01-01 |
| `Model.Last6MonthsOverflowsForward` | server/public/model/report.go:47 | six months back from 2024-08-31 is 2024-03-02 (day overflow carries forward), not the clamped 2024-02-29 |
| `Model.SortColumnExamples` | server/public/model/report.go:21 | `Username` and `CreateAt` are whitelisted; `Password`, `username` and `""` are not |
| `Model.ReportingBaseOptions.constructor` | server/public/model/report.go:26-34 | a new options value holds the given fields, with `StartAt` and `EndAt` at zero |
| `Model.ReportingBaseOptions.PopulateDateRange` | server/public/model/report.go:36-52 | overwrites `StartAt`/`EndAt` with the bounds for `(DateRange, now)` and changes no other field; afterwards the date-range check passes, so `IsValid` succeeds exactly when the page size is in range |
| `Model.PopulateDateRangeIsIdempotent` | server/public/model/report.go:36-52 | calling `PopulateDateRange` twice with the same `now` stores the same bounds as calling it once |
| `Model.ReportingBaseOptions.IsValid` | server/public/model/report.go:54-66 | returns `invalid_page_size` exactly when `PageSize <= 0` or `PageSize > 100`, whatever the dates; returns `bad_date_range` exactly when the page size is legal and `EndAt > 0 && StartAt > EndAt`; returns no other error |
| `Model.UserReportOptions.constructor` | server/public/model/report.go:83-91 | the embedded base options and the user filters hold the given values, with `StartAt` and `EndAt` at zero |
| `Model.UserReportOptions.IsValid` | server/public/model/report.go:93-104 | a base error is returned unchanged; otherwise the result is no error exactly when the sort column is one of the seven whitelisted columns, and `invalid_sort_column` when it is not |
| `Model.UserReportQuery.ToReport` | server/public/model/report.go:106-116 | copies `Id`, `Username`, `Email`, `CreateAt`, `Roles` and the post statistics unchanged; `DisplayName` is the display-name collaborator applied to the user with the nickname-or-full-name preference |
| `Api.QueryGet` | server/channels/api4/report.go:26-59 | `url.Values.Get`: the first value of a key, or `""` when the key is missing or has no values |
| `Api.SortColumnParam` | server/channels/api4/report.go:25-28 | a missing or empty `sort_column` becomes `Username`; any other value is taken verbatim; the result is never empty |
| `Api.PageSizeParam` | server/channels/api4/report.go:30-33 | a `page_size` that does not parse gives 50; otherwise the parsed value is used unclamped |
| `Api.RequestError` | server/channels/api4/report.go:35-46 | `invalid_team_filter` exactly when the team filter is non-empty and not an id; `invalid_active_filter` exactly when the team filter passes and both `hide_active` and `hide_inactive` equal `"true"` |
| `Api.DefaultsPassValidation` | server/channels/api4/report.go:25-33 | the default sort column is whitelisted and the default page size is in range |
| `Api.GetUsersForReporting` | server/channels/api4/report.go:25-63 | fails exactly with `RequestError`'s error, before building any options. Otherwise: `SortDesc` is true exactly when `sort_direction == "desc"`; each of the three flags is true exactly when its parameter equals `"true"`; the cursors, `date_range` and `role_filter` are copied verbatim; `StartAt`/`EndAt` come only from `PopulateDateRange`; `IsValid` would accept the options exactly when the page size is in range and the sort column is whitelisted |

## Left out

- Permission check, routing, the application-layer fetch, JSON encoding and logging (`server/channels/api4/report.go:15-23`, `:65-73`): transport and I/O around code that is not part of this model.
- Time zones: `time.Local` is a fixed UTC offset (`Zone`). Daylight-saving transitions are not modelled, so three results hold only for a fixed offset: `Last30DaysBounds`' exact 30 × 86 400 000 ms, `PreviousMonthBounds`' interval of exactly `DaysIn` × 86 400 000 ms, and `Last6MonthsBounds`' start between 181 and 184 days of milliseconds before `now`.
- `now` is taken to be in the same location as `time.Local`: Go reads `now`'s year, month and day in `now`'s own location but builds the start of the month in `time.Local`, and the model uses one `zone` for both. This holds at the only call site, where `now` is `time.Now()`.
- `time.Now()` is a parameter: a valid calendar value to millisecond precision. Sub-millisecond digits are not modelled; `UnixMilli` drops them.
- 64-bit widths: `PageSize`, `StartAt` and `EndAt` are unbounded integers. The 64-bit range check of `strconv.ParseInt` belongs to the `parseInt` parameter.
- `model.IsValidId`, `strconv.ParseInt` and `User.GetDisplayName` are foreign functions, modelled as function parameters. `pUtils.Contains` is sequence membership.
- `User` and `UserPostStats` are defined outside the shown files. `User` keeps the fields the projection reads, and the statistics are an opaque type parameter.
- `omitempty` on `create_at` is a JSON-encoding concern and is not modelled.
- `ChannelReportSortColumns` (`server/public/model/report.go:23`): no validator in the modelled code uses it.
- `webapp/platform/components/src/compass-ui/components/modal/generic_modal.tsx`: a UI component with no logic in scope.
