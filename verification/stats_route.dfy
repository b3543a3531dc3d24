/**
 * `GET /api/stats`: authenticates the caller, then turns the rows of three
 * aggregate queries over the caller's sessions into totals, a leading-run
 * streak and a 30-day activity window. Query results are inputs; the clock is
 * the `nowMs` parameter (milliseconds since the epoch).
 */
module StatsRoute {
  import opened Wrappers
  import opened Text
  import opened Model
  import opened Practice
  import opened Streaks
  import BearerAuth
  import SS = StatsService

  const DayMs: int := 86400000

  datatype Claims = Claims(userId: string, email: string)

  /** `getUserIdFromAuth`: the user id of a verified bearer token. */
  function UserIdFromAuth(header: Option<string>, verify: string -> Option<Claims>): (r: Result<string, string>)
    ensures BearerAuth.BearerToken(header).Failure? ==> r == Failure("Not authenticated")
    ensures r.Success? ==> exists c :: BearerAuth.Authenticate(header, verify) == Success(c) && r.value == c.userId
    ensures r.Failure? ==> r.error == "Not authenticated" || r.error == "Invalid token"
  {
    var claims :- BearerAuth.Authenticate(header, verify);
    Success(claims.userId)
  }

  /** `Math.floor((now - date) / 86400000)` for a row dated at the start of `day`. */
  function DiffDays(nowMs: int, day: int): int {
    (nowMs - day * DayMs) / DayMs
  }

  /** The whole days between a row's date and now are the distance between their day numbers. */
  lemma DiffDaysIsDayDistance(nowMs: int, day: int)
    ensures DiffDays(nowMs, day) == nowMs / DayMs - day
  {
    var q := nowMs / DayMs;
    assert nowMs - day * DayMs == (q - day) * DayMs + nowMs % DayMs;
  }

  /**
   * The route's streak loop over the practice dates, newest first: count while
   * the i-th date lies exactly i whole days before now.
   */
  method CurrentStreak(rows: seq<int>, nowMs: int) returns (streak: nat)
    ensures streak == LeadingRun(rows, nowMs / DayMs)
    ensures streak <= |rows|
  {
    streak := 0;
    var i := 0;
    while i < |rows|
      invariant 0 <= i <= |rows| && streak == i
      invariant LeadingRun(rows, nowMs / DayMs) == i + LeadingRun(rows[i..], nowMs / DayMs - i)
    {
      DiffDaysIsDayDistance(nowMs, rows[i]);
      if DiffDays(nowMs, rows[i]) == i {
        assert rows[i..][1..] == rows[i + 1..];
        streak := streak + 1;
      } else {
        break;
      }
      i := i + 1;
    }
  }

  /** With the rows the query returns (distinct dates, newest first, none after today) the route uses the anchored policy. */
  lemma RouteStreakIsAnchored(rows: seq<int>, nowMs: int)
    requires StrictlyDescending(rows)
    requires forall i :: 0 <= i < |rows| ==> rows[i] <= nowMs / DayMs
    ensures LeadingRun(rows, nowMs / DayMs) == AnchoredStreak(Elems(rows), nowMs / DayMs)
  {
    LeadingRunIsAnchored(rows, nowMs / DayMs);
  }

  /** One row of the grouped daily-activity query. */
  datatype ActivityRow = ActivityRow(day: int, totalCount: int)

  /** `rows.find(row => sameDay(row, day))`. */
  function FindRow(rows: seq<ActivityRow>, day: int): (r: Option<ActivityRow>)
    ensures r.None? <==> forall i :: 0 <= i < |rows| ==> rows[i].day != day
    ensures r.Some? ==> exists i :: (0 <= i < |rows| && rows[i] == r.value && r.value.day == day
      && forall j :: 0 <= j < i ==> rows[j].day != day)
  {
    if rows == [] then None
    else if rows[0].day == day then Some(rows[0])
    else
      var r := FindRow(rows[1..], day);
      if r.Some? then
        var i :| 0 <= i < |rows[1..]| && rows[1..][i] == r.value && r.value.day == day
          && forall j :: 0 <= j < i ==> rows[1..][j].day != day;
        assert rows[i + 1] == r.value;
        r
      else r
  }

  /** The count a day gets: the matching row's total, or 0 when no row matches. */
  function CountFor(rows: seq<ActivityRow>, day: int): int {
    match FindRow(rows, day)
    case Some(row) => row.totalCount
    case None => 0
  }

  /** The 30-entry activity window, oldest first, ending today. */
  function DailyActivity(rows: seq<ActivityRow>, today: int): (r: seq<SS.DailyStat>)
    ensures |r| == 30 && r[29].day == today
    ensures forall i :: 0 <= i < 30 ==> r[i].day == today - 29 + i
    ensures forall i :: 0 <= i < 30 ==> r[i].count == CountFor(rows, r[i].day)
  {
    seq(30, i requires 0 <= i < 30 => SS.DailyStat(today - 29 + i, CountFor(rows, today - 29 + i)))
  }

  /** Every row carries the session total of its day. */
  predicate RowsAreDayTotals(rows: seq<ActivityRow>, ss: seq<Session>) {
    forall i :: 0 <= i < |rows| ==> rows[i].totalCount == DayTotal(ss, rows[i].day)
  }

  /** Every practised day of the 30-day window ending today has a row. */
  predicate RowsCoverWindow(rows: seq<ActivityRow>, ss: seq<Session>, today: int) {
    forall d :: d in DaySet(ss) && today - 29 <= d <= today ==> exists i :: 0 <= i < |rows| && rows[i].day == d
  }

  /**
   * When the rows are the per-day totals of a session list, one row for each
   * practised day of the window, the activity window reports each day's total.
   */
  lemma DailyActivityMatchesSessions(rows: seq<ActivityRow>, ss: seq<Session>, today: int)
    requires RowsAreDayTotals(rows, ss)
    requires RowsCoverWindow(rows, ss, today)
    ensures forall i :: 0 <= i < 30 ==> DailyActivity(rows, today)[i].count == DayTotal(ss, today - 29 + i)
  {
    var w := DailyActivity(rows, today);
    forall i | 0 <= i < 30 ensures w[i].count == DayTotal(ss, today - 29 + i) {
      CountForDay(rows, ss, today, today - 29 + i);
    }
  }

  /** One day of the window: the matching row's total is the day total, and a day without a row has none. */
  lemma CountForDay(rows: seq<ActivityRow>, ss: seq<Session>, today: int, d: int)
    requires RowsAreDayTotals(rows, ss)
    requires RowsCoverWindow(rows, ss, today)
    requires today - 29 <= d <= today
    ensures CountFor(rows, d) == DayTotal(ss, d)
  {
    if FindRow(rows, d).None? {
      DayTotalAbsent(ss, d);
    }
  }

  /** 401 when the message mentions `authenticated`, otherwise 500. */
  function ErrorStatus(message: string): (r: int)
    ensures r == 401 <==> Contains(message, "authenticated")
    ensures r == 401 || r == 500
  {
    if Contains(message, "authenticated") then 401 else 500
  }

  /** A missing header maps to 401, but a token that fails verification maps to 500. */
  lemma ErrorStatusExamples()
    ensures ErrorStatus(BearerAuth.NotAuthenticated) == 401
    ensures ErrorStatus(BearerAuth.InvalidToken) == 500
  {
    assert Contains("Not authenticated"[4..], "authenticated") by {
      assert "Not authenticated"[4..][..13] == "authenticated";
    }
    assert Contains("Not authenticated"[3..], "authenticated");
    assert Contains("Not authenticated"[2..], "authenticated");
    assert Contains("Not authenticated"[1..], "authenticated");
    assert "Invalid token"[..13][0] == 'I';
    assert !Contains("Invalid token"[1..], "authenticated");
  }

  /** The results of the route's queries for one user. */
  datatype QueryResults = QueryResults(
    totalRepetitions: int,
    uniqueDays: nat,
    practiceDates: seq<int>,
    activity: seq<ActivityRow>)

  datatype StatsResponse =
    | StatsBody(totalRepetitions: int, uniqueDaysPracticed: nat, currentStreak: nat, dailyActivity: seq<SS.DailyStat>)
    | ErrorBody(status: int, error: string)

  /**
   * `GET /api/stats`. `queries` maps a user id to the query results, or to the
   * message of the error the database raised.
   */
  method Get(header: Option<string>, verify: string -> Option<Claims>,
             queries: string -> Result<QueryResults, string>, nowMs: int) returns (resp: StatsResponse)
    ensures UserIdFromAuth(header, verify).Failure? ==>
      resp == ErrorBody(ErrorStatus(UserIdFromAuth(header, verify).error), UserIdFromAuth(header, verify).error)
    ensures BearerAuth.BearerToken(header).Failure? ==> resp == ErrorBody(401, "Not authenticated")
    ensures resp.StatsBody? ==> UserIdFromAuth(header, verify).Success?
    ensures resp.StatsBody? ==> exists q :: (queries(UserIdFromAuth(header, verify).value) == Success(q)
      && resp.totalRepetitions == q.totalRepetitions && resp.uniqueDaysPracticed == q.uniqueDays
      && resp.currentStreak == LeadingRun(q.practiceDates, nowMs / DayMs)
      && resp.dailyActivity == DailyActivity(q.activity, nowMs / DayMs))
    ensures UserIdFromAuth(header, verify).Success? && queries(UserIdFromAuth(header, verify).value).Success? ==>
      var q := queries(UserIdFromAuth(header, verify).value).value;
      resp == StatsBody(q.totalRepetitions, q.uniqueDays, LeadingRun(q.practiceDates, nowMs / DayMs),
                        DailyActivity(q.activity, nowMs / DayMs))
    ensures UserIdFromAuth(header, verify).Success? && queries(UserIdFromAuth(header, verify).value).Failure? ==>
      var e := queries(UserIdFromAuth(header, verify).value).error;
      resp == ErrorBody(ErrorStatus(e), e)
  {
    var user := UserIdFromAuth(header, verify);
    if user.Failure? {
      ErrorStatusExamples();
      return ErrorBody(ErrorStatus(user.error), user.error);
    }
    var result := queries(user.value);
    if result.Failure? {
      return ErrorBody(ErrorStatus(result.error), result.error);
    }
    var q := result.value;
    var streak := CurrentStreak(q.practiceDates, nowMs);
    resp := StatsBody(q.totalRepetitions, q.uniqueDays, streak, DailyActivity(q.activity, nowMs / DayMs));
  }
}
