/**
 * The request handlers of the server: login, the current-task query with its
 * rollover rule, task creation, completion with the streak update, and the
 * streak summary. Each handler runs to completion before the next one starts.
 *
 * The clock and the random id source are parameters: `now` is the ISO
 * timestamp `new Date().toISOString()` would give, `today` the local day of
 * `new Date()`, and `freshId` the id the random generator would produce.
 */
module Server {
  import opened Wrappers
  import opened Calendar
  import opened Collation
  import opened Database

  /** Error responses: status 400 with its message, or status 500 with the store's error. */
  datatype ApiError = BadRequest(message: string) | ServerError(cause: DbError)

  /** A task as the current-task handler returns it: its row with `completed` made a boolean. */
  datatype Task = Task(
    id: string, userId: string, text: string,
    completed: bool, createdAt: string, completedAt: Option<string>)

  /** The body of the streak summary response. */
  datatype StreakSummary = StreakSummary(
    currentStreak: int, lastCompletedDate: Option<string>, completedDates: seq<string>)

  /** `!!task.completed` applied to a row. */
  function AsTask(row: TaskRow): (t: Task)
    ensures t.id == row.id && t.userId == row.userId && t.text == row.text
    ensures t.createdAt == row.createdAt && t.completedAt == row.completedAt
    ensures t.completed <==> row.completed != 0
  {
    Task(row.id, row.userId, row.text, row.completed != 0, row.createdAt, row.completedAt)
  }

  /**
   * The rollover test of the current-task handler: the day text of the task's
   * creation differs from today's and the task is not completed.
   */
  predicate IsStale(cal: Calendar, row: TaskRow, today: int): (r: bool)
    ensures r ==> row.completed == 0
  {
    DateText(cal, cal.dayOf(row.createdAt)) != cal.dayStr(today) && row.completed == 0
  }

  /** In day numbers: a task is stale exactly when it is incomplete and was not created today. */
  lemma IsStaleMeaning(cal: Calendar, row: TaskRow, today: int)
    requires Coherent(cal)
    ensures IsStale(cal, row, today) <==> row.completed == 0 && cal.dayOf(row.createdAt) != Some(today)
  {
    DayStrIsValid(cal, today);
    match cal.dayOf(row.createdAt)
    case None =>
    case Some(d) => DayStrInjective(cal, d, today);
  }

  /**
   * The streak decision of the completion handler, given the stored streak and
   * the day text of the completion: 1 without a (truthy) previous date, one
   * more on a gap of exactly one day, 1 again on a longer gap, and unchanged
   * on a gap of zero or less or when either date is invalid (NaN).
   */
  function NextStreak(cal: Calendar, prev: StreakRow, today: string): (r: int)
    ensures !Truthy(prev.lastCompletedDate) ==> r == 1
    ensures r == 1 || r == prev.currentStreak || r == prev.currentStreak + 1
  {
    if Truthy(prev.lastCompletedDate) then
      match DayGap(cal, prev.lastCompletedDate.value, today)
      case Some(gap) =>
        if gap == 1 then prev.currentStreak + 1
        else if gap > 1 then 1
        else prev.currentStreak
      case None => prev.currentStreak
    else 1
  }

  /** The streak rules in day numbers, for completions on valid days. */
  lemma NextStreakRules(cal: Calendar, current: int, last: Option<int>, day: int)
    requires Coherent(cal)
    ensures var prev := StreakRow(current, if last.Some? then Some(cal.dayStr(last.value)) else None);
            var next := NextStreak(cal, prev, cal.dayStr(day));
            && (last.None? ==> next == 1)
            && (last.Some? && day - last.value == 1 ==> next == current + 1)
            && (last.Some? && day - last.value > 1 ==> next == 1)
            && (last.Some? && day - last.value <= 0 ==> next == current)
  {
    if last.Some? {
      DayGapOfRenderedDays(cal, last.value, day);
    }
  }

  /**
   * Completing again on the day already stored as the last completion never
   * changes the streak, valid day or not.
   */
  lemma NextStreakSameDay(cal: Calendar, current: int, today: string)
    requires today != ""
    ensures NextStreak(cal, StreakRow(current, Some(today)), today) == current
  {
  }

  /**
   * A stored last date of `"Invalid Date"` makes the gap NaN, so the next
   * recorded completion keeps the count; it also stores its own day as the
   * last date, and counting resumes from there on the following day.
   */
  lemma NextStreakAfterInvalidDate(cal: Calendar, current: int, day: int)
    requires Coherent(cal)
    ensures NextStreak(cal, StreakRow(current, Some(InvalidDate)), cal.dayStr(day)) == current
    ensures NextStreak(cal, StreakRow(current, Some(cal.dayStr(day))), cal.dayStr(day + 1)) == current + 1
  {
    DayGapOfRenderedDays(cal, day, day + 1);
  }

  /**
   * A completion time that does not parse gives the day text `"Invalid Date"`,
   * whose gap to any stored date is NaN: the count is kept.
   */
  lemma NextStreakOnInvalidCompletion(cal: Calendar, current: int, last: string)
    requires Coherent(cal)
    requires last != ""
    ensures NextStreak(cal, StreakRow(current, Some(last)), DateText(cal, None)) == current
  {
  }

  /**
   * `POST /api/login`: get-or-create by username. A falsy username (absent or
   * empty) is refused; a blank one is not. A new row uses `freshId` and `now`.
   */
  method Login(db: Db, username: Option<string>, freshId: string, now: string)
    returns (r: Result<UserRow, ApiError>)
    requires db.Valid()
    modifies db`users
    ensures db.Valid()
    ensures !Truthy(username) ==> r == Err(BadRequest("Username required")) && db.users == old(db.users)
    ensures Truthy(username) && GetUserByUsername(old(db.users), username.value).Some? ==>
              r == Ok(GetUserByUsername(old(db.users), username.value).value) && db.users == old(db.users)
    ensures Truthy(username) && GetUserByUsername(old(db.users), username.value).None? ==>
              if exists u :: u in old(db.users) && u.id == freshId
              then r == Err(ServerError(ConstraintFailed)) && db.users == old(db.users)
              else r == Ok(UserRow(freshId, username.value, now)) && db.users == old(db.users) + [r.value]
    ensures r.Ok? ==> r.value in db.users && r.value.username == username.value
  {
    if !Truthy(username) {
      return Err(BadRequest("Username required"));
    }
    var user := GetUserByUsername(db.users, username.value);
    if user.None? {
      var created := db.CreateUser(freshId, username.value, now);
      if created.Err? {
        return Err(ServerError(created.error));
      }
      user := Some(created.value);
    }
    r := Ok(user.value);
  }

  /**
   * Two logins in a row with the same username: the second returns the very
   * row of the first, and at most one row was added.
   */
  method RepeatedLogin(db: Db, username: string, id1: string, id2: string, now1: string, now2: string)
    returns (first: Result<UserRow, ApiError>, second: Result<UserRow, ApiError>)
    requires db.Valid()
    modifies db`users
    ensures db.Valid()
    ensures first.Ok? ==> second == first
    ensures |db.users| <= |old(db.users)| + 1
    ensures (exists u :: u in old(db.users) && u.username == username) ==> db.users == old(db.users)
  {
    first := Login(db, Some(username), id1, now1);
    ghost var between := db.users;
    second := Login(db, Some(username), id2, now2);
    if first.Ok? {
      assert username != "";
      var found := GetUserByUsername(between, username);
      assert found.Some?;
      ghost var i :| 0 <= i < |between| && between[i] == found.value;
      ghost var j :| 0 <= j < |between| && between[j] == first.value;
      assert i == j;
    }
  }

  /**
   * `GET /api/task/:userId`: the user's most recent task, hidden when it is
   * stale. A completed task is returned however old it is.
   */
  method GetCurrentTask(db: Db, cal: Calendar, userId: string, today: int) returns (r: Option<Task>)
    ensures var latest := GetTaskByUserId(db.tasks, userId);
            r == if latest.None? || IsStale(cal, latest.value, today) then None else Some(AsTask(latest.value))
    ensures var latest := GetTaskByUserId(db.tasks, userId);
            Coherent(cal) ==>
              (r.None? <==> latest.None? ||
                            (latest.value.completed == 0 && cal.dayOf(latest.value.createdAt) != Some(today)))
    ensures r.Some? ==> r.value.userId == userId
  {
    var task := GetTaskByUserId(db.tasks, userId);
    if task.Some? {
      if Coherent(cal) { IsStaleMeaning(cal, task.value, today); }
      if IsStale(cal, task.value, today) {
        return None;
      }
      return Some(AsTask(task.value));
    }
    return None;
  }

  /**
   * `POST /api/task`: a new incomplete task. The id and the creation time
   * fall back to `freshId` and `now` only when the client sends falsy ones.
   * The text is stored as sent. A taken id is a store error.
   */
  method CreateTask(db: Db, userId: string, text: string, id: Option<string>, createdAt: Option<string>,
                    freshId: string, now: string)
    returns (r: Result<NewTask, ApiError>)
    requires db.Valid()
    modifies db`tasks
    ensures db.Valid()
    ensures var task := NewTask(OrDefault(id, freshId), userId, text, false, OrDefault(createdAt, now));
            if exists t :: t in old(db.tasks) && t.id == task.id
            then r == Err(ServerError(ConstraintFailed)) && db.tasks == old(db.tasks)
            else r == Ok(task) &&
                 db.tasks == old(db.tasks) + [TaskRow(task.id, userId, text, 0, task.createdAt, None)]
    ensures r.Ok? ==> !r.value.completed
  {
    var task := NewTask(OrDefault(id, freshId), userId, text, false, OrDefault(createdAt, now));
    var stored := db.CreateTask(task);
    if stored.Err? {
      return Err(ServerError(stored.error));
    }
    r := Ok(task);
  }

  /**
   * `POST /api/task/complete`: marks the task completed (an unknown task id
   * changes no row), then records the completion unless its day text is among
   * the dates `getCompletedDates` returns (the 30 greatest strings, not the 30
   * most recent days). A recorded completion appends the day text and stores
   * the new streak with that text as the last completed date.
   */
  method CompleteTask(db: Db, cal: Calendar, taskId: string, userId: string, completedAt: string)
    requires db.Valid()
    modifies db`tasks, db`completedDates, db`nextDateId, db`streaks
    ensures db.Valid()
    ensures db.tasks == SetCompleted(old(db.tasks), taskId, 1, Some(completedAt))
    ensures (forall t :: t in old(db.tasks) ==> t.id != taskId) ==> db.tasks == old(db.tasks)
    ensures var today := DateText(cal, cal.dayOf(completedAt));
            if today in GetCompletedDates(old(db.completedDates), userId, DefaultLimit) then
              db.completedDates == old(db.completedDates) && db.streaks == old(db.streaks) &&
              db.nextDateId == old(db.nextDateId)
            else
              && db.completedDates == old(db.completedDates) + [DateRow(old(db.nextDateId), userId, today)]
              && db.nextDateId == old(db.nextDateId) + 1
              && db.streaks == old(db.streaks)[userId :=
                   StreakRow(NextStreak(cal, GetStreak(old(db.streaks), userId), today), Some(today))]
  {
    if forall t :: t in db.tasks ==> t.id != taskId {
      SetCompletedUnknownId(db.tasks, taskId, 1, Some(completedAt));
    }
    db.UpdateTask(taskId, true, Some(completedAt));
    var today := DateText(cal, cal.dayOf(completedAt));
    var existingDates := GetCompletedDates(db.completedDates, userId, DefaultLimit);
    if today !in existingDates {
      db.AddCompletedDate(userId, today);
      var streakData := GetStreak(db.streaks, userId);
      db.UpdateStreak(userId, NextStreak(cal, streakData, today), Some(today));
    }
  }

  /**
   * Two completions for the same instant in a row raise the streak at most
   * once: the second leaves the streak count where the first put it. (When the
   * user's log is long, the second may still append a duplicate row.)
   */
  method CompleteTwice(db: Db, cal: Calendar, taskId: string, userId: string, completedAt: string)
    returns (afterFirst: StreakRow, afterSecond: StreakRow)
    requires db.Valid() && Coherent(cal)
    modifies db`tasks, db`completedDates, db`nextDateId, db`streaks
    ensures db.Valid()
    ensures afterSecond.currentStreak == afterFirst.currentStreak
    ensures afterSecond == GetStreak(db.streaks, userId)
  {
    ghost var today := DateText(cal, cal.dayOf(completedAt));
    ghost var initialDates := db.completedDates;
    CompleteTask(db, cal, taskId, userId, completedAt);
    afterFirst := GetStreak(db.streaks, userId);
    ghost var firstDates := db.completedDates;
    CompleteTask(db, cal, taskId, userId, completedAt);
    afterSecond := GetStreak(db.streaks, userId);
    if today !in GetCompletedDates(firstDates, userId, DefaultLimit) {
      // the second call recorded the date, so the first did too (had the
      // first found it, the log and hence the fetched dates would be the same)
      assert today !in GetCompletedDates(initialDates, userId, DefaultLimit);
      assert afterFirst.lastCompletedDate == Some(today);
      if cal.dayOf(completedAt).Some? { DayStrIsValid(cal, cal.dayOf(completedAt).value); }
      NextStreakSameDay(cal, afterFirst.currentStreak, today);
    }
  }

  /**
   * `GET /api/streak/:userId`: a pure read of the stored (or default) streak
   * and of `getCompletedDates`, whose list may name a day more than once.
   */
  method GetStreakSummary(db: Db, userId: string) returns (r: StreakSummary)
    ensures r.currentStreak == GetStreak(db.streaks, userId).currentStreak
    ensures r.lastCompletedDate == GetStreak(db.streaks, userId).lastCompletedDate
    ensures r.completedDates == GetCompletedDates(db.completedDates, userId, DefaultLimit)
    ensures |r.completedDates| <= DefaultLimit && SortedDesc(r.completedDates)
  {
    var streak := GetStreak(db.streaks, userId);
    var completedDates := GetCompletedDates(db.completedDates, userId, DefaultLimit);
    r := StreakSummary(streak.currentStreak, streak.lastCompletedDate, completedDates);
  }

  /** Two rows for one day both reach the summary: the list is not deduplicated. */
  lemma SummaryKeepsDuplicateRows(userId: string, day: string)
    ensures GetCompletedDates([DateRow(1, userId, day), DateRow(2, userId, day)], userId, DefaultLimit) == [day, day]
  {
    var rows := [DateRow(1, userId, day), DateRow(2, userId, day)];
    assert rows[1..] == [DateRow(2, userId, day)];
    assert DatesOf(rows, userId) == [day, day];
    assert SortDesc([day]) == [day];
    StrLeReflexive(day);
    assert SortDesc([day, day]) == Insert(day, [day]) == [day, day];
  }

  /**
   * A task created today with a creation time above the user's earlier ones
   * is what the current-task handler returns next, incomplete.
   */
  lemma CreatedTaskIsCurrent(cal: Calendar, tasks: seq<TaskRow>, row: TaskRow, today: int)
    requires Coherent(cal)
    requires row.completed == 0 && cal.dayOf(row.createdAt) == Some(today)
    requires forall t :: t in tasks && t.userId == row.userId ==>
               StrLe(t.createdAt, row.createdAt) && t.createdAt != row.createdAt
    ensures GetTaskByUserId(tasks + [row], row.userId) == Some(row)
    ensures !IsStale(cal, row, today) && !AsTask(row).completed
  {
    LatestAfterInsert(tasks, row);
    IsStaleMeaning(cal, row, today);
  }

  /**
   * Completing the user's current task keeps it current, now completed, and
   * no later day hides it.
   */
  lemma CompletedTaskStaysCurrent(cal: Calendar, tasks: seq<TaskRow>, userId: string,
                                  completedAt: string, laterDay: int)
    requires GetTaskByUserId(tasks, userId).Some?
    ensures var t := GetTaskByUserId(tasks, userId).value;
            var after := SetCompleted(tasks, t.id, 1, Some(completedAt));
            && GetTaskByUserId(after, userId) == Some(t.(completed := 1, completedAt := Some(completedAt)))
            && !IsStale(cal, GetTaskByUserId(after, userId).value, laterDay)
            && AsTask(GetTaskByUserId(after, userId).value).completed
  {
    var t := GetTaskByUserId(tasks, userId).value;
    LatestAfterSetCompleted(tasks, t.id, 1, Some(completedAt), userId);
  }
}
