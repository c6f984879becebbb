/** The admin endpoint that lists users for reporting: how it turns the
    request's query parameters into user report options, rejects a bad team
    filter or contradictory active filters, and fills in the date range
    before the options go to the application layer. */
module Api {
  import opened Wrappers
  import opened Calendar
  import opened Model

  /** A URL query: each key with its values in order. */
  type Query = map<string, seq<string>>

  const DefaultSortColumn: string := "Username"
  const DefaultPageSize: int := 50

  const InvalidTeamFilterError: AppError :=
    AppError("getUsersForReporting", "api.getUsersForReporting.invalid_team_filter", StatusBadRequest)
  const InvalidActiveFilterError: AppError :=
    AppError("getUsersForReporting", "api.getUsersForReporting.invalid_active_filter", StatusBadRequest)

  /** The first value of `key`, or "" when the key is absent or has none. */
  function QueryGet(query: Query, key: string): string {
    if key in query && |query[key]| > 0 then query[key][0] else ""
  }

  /** A parameter that is set exactly when its value is the string "true". */
  predicate FlagParam(query: Query, key: string) {
    QueryGet(query, key) == "true"
  }

  /** The sort column: `sort_column` when non-empty, else "Username". */
  function SortColumnParam(query: Query): (c: string)
    ensures c != ""
    ensures QueryGet(query, "sort_column") == "" ==> c == DefaultSortColumn
    ensures QueryGet(query, "sort_column") != "" ==> c == QueryGet(query, "sort_column")
  {
    if QueryGet(query, "sort_column") != "" then QueryGet(query, "sort_column") else DefaultSortColumn
  }

  /** The page size: `page_size` parsed as a decimal integer, unclamped, or
      50 when it does not parse. */
  function PageSizeParam(query: Query, parseInt: string -> Option<int>): (n: int)
    ensures parseInt(QueryGet(query, "page_size")).None? ==> n == DefaultPageSize
    ensures parseInt(QueryGet(query, "page_size")).Some? ==> n == parseInt(QueryGet(query, "page_size")).value
  {
    match parseInt(QueryGet(query, "page_size"))
    case Some(v) => v
    case None => DefaultPageSize
  }

  /** The error the handler reports before building any options: a
      non-empty team filter that is not an id, checked first, then both
      "hide" filters at once. */
  function RequestError(query: Query, isValidId: string -> bool): (e: Option<AppError>)
    ensures var team := QueryGet(query, "team_filter");
            e == Some(InvalidTeamFilterError) <==> team != "" && !isValidId(team)
    ensures var team := QueryGet(query, "team_filter");
            e == Some(InvalidActiveFilterError) <==>
              (team == "" || isValidId(team)) && FlagParam(query, "hide_active") && FlagParam(query, "hide_inactive")
    ensures e == None || e == Some(InvalidTeamFilterError) || e == Some(InvalidActiveFilterError)
  {
    var team := QueryGet(query, "team_filter");
    if !(team == "" || isValidId(team)) then Some(InvalidTeamFilterError)
    else if FlagParam(query, "hide_active") && FlagParam(query, "hide_inactive") then Some(InvalidActiveFilterError)
    else None
  }

  /** The defaults the handler falls back to pass the checks of
      `UserReportOptions.IsValid`. */
  lemma DefaultsPassValidation(query: Query, parseInt: string -> Option<int>)
    requires QueryGet(query, "sort_column") == "" && parseInt(QueryGet(query, "page_size")).None?
    ensures SortColumnParam(query) in UserReportSortColumns
    ensures 0 < PageSizeParam(query, parseInt) <= ReportingMaxPageSize
  {
  }

  /** The handler up to the application call: either the error it sets, or
      the options it hands to the application layer. Every option comes
      from its query parameter as stated; `startAt` and `endAt` come from
      `PopulateDateRange` alone. The handler does not call `IsValid`; the
      last postcondition says what it would return on these options. */
  method GetUsersForReporting(query: Query, now: Civil, zone: Zone,
                              isValidId: string -> bool, parseInt: string -> Option<int>)
    returns (r: Result<UserReportOptions, AppError>)
    ensures r.Failure? <==> RequestError(query, isValidId).Some?
    ensures r.Failure? ==> r.error == RequestError(query, isValidId).value
    ensures r.Success? ==>
      var o := r.value;
      && fresh(o) && fresh(o.base)
      && o.base.sortColumn == SortColumnParam(query)
      && o.base.sortDesc == (QueryGet(query, "sort_direction") == "desc")
      && o.base.pageSize == PageSizeParam(query, parseInt)
      && o.base.lastSortColumnValue == QueryGet(query, "last_column_value")
      && o.base.dateRange == QueryGet(query, "date_range")
      && DateBounds(o.base.startAt, o.base.endAt) == DateRangeBounds(QueryGet(query, "date_range"), now, zone)
      && o.team == QueryGet(query, "team_filter")
      && o.lastUserId == QueryGet(query, "last_id")
      && o.role == QueryGet(query, "role_filter")
      && o.hasNoTeam == FlagParam(query, "has_no_team")
      && o.hideActive == FlagParam(query, "hide_active")
      && o.hideInactive == FlagParam(query, "hide_inactive")
    ensures r.Success? ==> (r.value.team == "" || isValidId(r.value.team)) && !(r.value.hideActive && r.value.hideInactive)
    ensures r.Success? ==>
      (r.value.IsValid() == None <==>
         0 < PageSizeParam(query, parseInt) <= ReportingMaxPageSize && SortColumnParam(query) in UserReportSortColumns)
  {
    var sortColumn := "Username";
    if QueryGet(query, "sort_column") != "" {
      sortColumn := QueryGet(query, "sort_column");
    }

    var pageSize := 50;
    var parsed := parseInt(QueryGet(query, "page_size"));
    if parsed.Some? {
      pageSize := parsed.value;
    }

    var teamFilter := QueryGet(query, "team_filter");
    if !(teamFilter == "" || isValidId(teamFilter)) {
      return Failure(InvalidTeamFilterError);
    }

    var hideActive := QueryGet(query, "hide_active") == "true";
    var hideInactive := QueryGet(query, "hide_inactive") == "true";
    if hideActive && hideInactive {
      return Failure(InvalidActiveFilterError);
    }

    var options := new UserReportOptions(
      QueryGet(query, "sort_direction") == "desc", pageSize, sortColumn,
      QueryGet(query, "last_column_value"), QueryGet(query, "date_range"),
      QueryGet(query, "last_id"), QueryGet(query, "role_filter"), teamFilter,
      QueryGet(query, "has_no_team") == "true", hideActive, hideInactive);
    options.base.PopulateDateRange(now, zone);
    return Success(options);
  }
}
