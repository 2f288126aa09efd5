/**
 * The relational store of the server: four tables held in memory.
 *
 * Each SELECT of the store is a function of the table it reads; each INSERT,
 * UPDATE and upsert is a method of `Db` that changes only the table it names.
 * SQLite does not enforce FOREIGN KEY clauses unless asked to, and nothing
 * asks it, so `user_id` columns may name users that do not exist.
 */
module Database {
  import opened Wrappers
  import opened Collation

  /** A row of `users`: `id` is the primary key, `username` is UNIQUE. */
  datatype UserRow = UserRow(id: string, username: string, createdAt: string)

  /** A row of `tasks`; `completed` holds the integer SQLite stores for the boolean. */
  datatype TaskRow = TaskRow(
    id: string, userId: string, text: string,
    completed: int, createdAt: string, completedAt: Option<string>)

  /** A row of `streaks`, keyed by its user id. */
  datatype StreakRow = StreakRow(currentStreak: int, lastCompletedDate: Option<string>)

  /** A row of `completed_dates`; `id` is the AUTOINCREMENT key. */
  datatype DateRow = DateRow(id: nat, userId: string, date: string)

  /** The task object handed to `createTask`. */
  datatype NewTask = NewTask(id: string, userId: string, text: string, completed: bool, createdAt: string)

  /** The error SQLite reports when an INSERT would break a PRIMARY KEY or UNIQUE constraint. */
  datatype DbError = ConstraintFailed

  /** The default of `getCompletedDates`'s `limit` parameter. */
  const DefaultLimit: nat := 30

  /** `SELECT * FROM users WHERE username = ?` (LIMIT 1, as `db.get` reads one row). */
  function GetUserByUsername(users: seq<UserRow>, username: string): (r: Option<UserRow>)
    ensures r.Some? ==> r.value in users && r.value.username == username
    ensures r.None? ==> forall u :: u in users ==> u.username != username
  {
    if users == [] then None
    else if users[0].username == username then Some(users[0])
    else GetUserByUsername(users[1..], username)
  }

  /**
   * `SELECT * FROM tasks WHERE user_id = ? ORDER BY created_at DESC LIMIT 1`:
   * a task of the user whose `created_at` is greatest under the collation.
   * SQLite does not say which of several maximal rows it returns; this one
   * returns the earliest inserted, and its contract promises only maximality.
   */
  function GetTaskByUserId(tasks: seq<TaskRow>, userId: string): (r: Option<TaskRow>)
    ensures r.None? <==> forall t :: t in tasks ==> t.userId != userId
    ensures r.Some? ==> r.value in tasks && r.value.userId == userId
    ensures r.Some? ==> forall t :: t in tasks && t.userId == userId ==> StrLe(t.createdAt, r.value.createdAt)
  {
    if tasks == [] then None
    else
      var rest := GetTaskByUserId(tasks[1..], userId);
      assert forall t :: t in tasks ==> t == tasks[0] || t in tasks[1..];
      if tasks[0].userId != userId then rest
      else if rest.None? then
        StrLeReflexive(tasks[0].createdAt);
        Some(tasks[0])
      else
        StrLeTotal(rest.value.createdAt, tasks[0].createdAt);
        StrLeReflexive(tasks[0].createdAt);
        if StrLe(rest.value.createdAt, tasks[0].createdAt) then
          assert forall t :: t in tasks[1..] && t.userId == userId ==>
            StrLe(t.createdAt, rest.value.createdAt) && StrLe(t.createdAt, tasks[0].createdAt) by {
            forall t | t in tasks[1..] && t.userId == userId
              ensures StrLe(t.createdAt, tasks[0].createdAt)
            {
              StrLeTransitive(t.createdAt, rest.value.createdAt, tasks[0].createdAt);
            }
          }
          Some(tasks[0])
        else
          rest
  }

  /** `SELECT * FROM streaks WHERE user_id = ?`, or the default row when there is none. */
  function GetStreak(streaks: map<string, StreakRow>, userId: string): (r: StreakRow)
    ensures userId !in streaks ==> r == StreakRow(0, None)
    ensures userId in streaks ==> r == streaks[userId]
  {
    if userId in streaks then streaks[userId] else StreakRow(0, None)
  }

  /** The `date` column of the user's rows of `completed_dates`, in insertion order. */
  function DatesOf(rows: seq<DateRow>, userId: string): (r: seq<string>)
    ensures |r| <= |rows|
    ensures forall s :: s in r <==> exists row :: row in rows && row.userId == userId && row.date == s
  {
    if rows == [] then []
    else
      var rest := DatesOf(rows[1..], userId);
      assert forall row :: row in rows <==> row == rows[0] || row in rows[1..];
      if rows[0].userId == userId then [rows[0].date] + rest else rest
  }

  /**
   * `SELECT date FROM completed_dates WHERE user_id = ? ORDER BY date DESC LIMIT ?`.
   * The order is that of the stored strings, not of the days they name.
   */
  function GetCompletedDates(rows: seq<DateRow>, userId: string, limit: nat): (r: seq<string>)
    ensures |r| == if limit < |DatesOf(rows, userId)| then limit else |DatesOf(rows, userId)|
    ensures forall s :: s in r ==> s in DatesOf(rows, userId)
    ensures SortedDesc(r)
  {
    var sorted := SortDesc(DatesOf(rows, userId));
    SortDescSorted(DatesOf(rows, userId));
    assert forall s :: s in Take(sorted, limit) ==> s in DatesOf(rows, userId) by {
      forall s | s in Take(sorted, limit) ensures s in DatesOf(rows, userId) {
        assert s in sorted;
        assert s in multiset(sorted);
        assert s in multiset(DatesOf(rows, userId));
      }
    }
    Take(sorted, limit)
  }

  /** Appending a row adds its date to its own user's dates only, at the end. */
  lemma {:induction false} DatesOfAppend(rows: seq<DateRow>, row: DateRow, userId: string)
    ensures DatesOf(rows + [row], userId) ==
            if row.userId == userId then DatesOf(rows, userId) + [row.date] else DatesOf(rows, userId)
  {
    if rows != [] {
      assert (rows + [row])[1..] == rows[1..] + [row];
      DatesOfAppend(rows[1..], row, userId);
    }
  }

  /**
   * The view keeps at most `limit` of the user's dates, and every date it
   * leaves out sorts at or below every date it keeps.
   */
  lemma GetCompletedDatesKeepsLargest(rows: seq<DateRow>, userId: string, limit: nat)
    ensures multiset(GetCompletedDates(rows, userId, limit)) <= multiset(DatesOf(rows, userId))
    ensures forall x, i :: x in multiset(DatesOf(rows, userId)) - multiset(GetCompletedDates(rows, userId, limit))
              && 0 <= i < |GetCompletedDates(rows, userId, limit)|
              ==> StrLe(x, GetCompletedDates(rows, userId, limit)[i])
  {
    var d := DatesOf(rows, userId);
    SortDescSorted(d);
    TakeSortedKeepsLargest(SortDesc(d), limit);
  }

  /**
   * Which recorded dates the view returns: a date of the user is returned
   * exactly when the user has at most `limit` dates, or it sorts at or above
   * the `limit`-th largest of them.
   */
  lemma GetCompletedDatesMembership(rows: seq<DateRow>, userId: string, limit: nat, s: string)
    ensures var d := DatesOf(rows, userId);
            s in GetCompletedDates(rows, userId, limit) <==>
              s in d && (|d| <= limit || (limit > 0 && StrLe(SortDesc(d)[limit - 1], s)))
  {
    var d := DatesOf(rows, userId);
    var sorted := SortDesc(d);
    SortDescSorted(d);
    TakeSortedMembership(sorted, limit, s);
    assert s in sorted <==> s in multiset(sorted);
    assert s in d <==> s in multiset(d);
  }

  /** While the user has at most `limit` rows, the view sees every recorded date. */
  lemma GetCompletedDatesSeesAll(rows: seq<DateRow>, userId: string, limit: nat, s: string)
    requires |DatesOf(rows, userId)| <= limit
    ensures s in GetCompletedDates(rows, userId, limit) <==> s in DatesOf(rows, userId)
  {
    GetCompletedDatesMembership(rows, userId, limit, s);
  }

  /**
   * The `tasks` table after `UPDATE tasks SET completed = ?, completed_at = ?
   * WHERE id = ?`: the rows keep their order and every column but those two,
   * rows with another id are untouched, and an unknown id changes nothing.
   */
  function SetCompleted(tasks: seq<TaskRow>, id: string, completed: int, completedAt: Option<string>): (r: seq<TaskRow>)
    ensures |r| == |tasks|
    ensures forall i :: 0 <= i < |tasks| ==>
              r[i] == if tasks[i].id == id then tasks[i].(completed := completed, completedAt := completedAt) else tasks[i]
  {
    if tasks == [] then []
    else
      var head := if tasks[0].id == id then tasks[0].(completed := completed, completedAt := completedAt) else tasks[0];
      [head] + SetCompleted(tasks[1..], id, completed, completedAt)
  }

  /** Updating an id no row has leaves the table as it was. */
  lemma SetCompletedUnknownId(tasks: seq<TaskRow>, id: string, completed: int, completedAt: Option<string>)
    requires forall t :: t in tasks ==> t.id != id
    ensures SetCompleted(tasks, id, completed, completedAt) == tasks
  {
    var r := SetCompleted(tasks, id, completed, completedAt);
    forall i | 0 <= i < |tasks| ensures r[i] == tasks[i] {
      assert tasks[i] in tasks;
    }
  }

  /**
   * The update does not change which task is the user's most recent one:
   * the same row is returned, with its new completion columns when it is the
   * row updated.
   */
  lemma {:induction false} LatestAfterSetCompleted(tasks: seq<TaskRow>, id: string, completed: int,
                                                   completedAt: Option<string>, userId: string)
    ensures GetTaskByUserId(SetCompleted(tasks, id, completed, completedAt), userId) ==
            match GetTaskByUserId(tasks, userId)
            case None => None
            case Some(t) => Some(if t.id == id then t.(completed := completed, completedAt := completedAt) else t)
  {
    if tasks != [] {
      var updated := SetCompleted(tasks, id, completed, completedAt);
      assert updated[1..] == SetCompleted(tasks[1..], id, completed, completedAt);
      LatestAfterSetCompleted(tasks[1..], id, completed, completedAt, userId);
    }
  }

  /**
   * A task whose `created_at` sorts strictly above every earlier task of its
   * user becomes that user's most recent task once inserted.
   */
  lemma {:induction false} LatestAfterInsert(tasks: seq<TaskRow>, row: TaskRow)
    requires forall t :: t in tasks && t.userId == row.userId ==>
               StrLe(t.createdAt, row.createdAt) && t.createdAt != row.createdAt
    ensures GetTaskByUserId(tasks + [row], row.userId) == Some(row)
  {
    if tasks == [] {
      assert tasks + [row] == [row];
    } else {
      assert (tasks + [row])[1..] == tasks[1..] + [row];
      LatestAfterInsert(tasks[1..], row);
      if tasks[0].userId == row.userId {
        if StrLe(row.createdAt, tasks[0].createdAt) {
          StrLeAntisymmetric(row.createdAt, tasks[0].createdAt);
        }
      }
    }
  }

  /** The four tables, changed in place by the server's handlers. */
  class Db {
    var users: seq<UserRow>
    var tasks: seq<TaskRow>
    var streaks: map<string, StreakRow>
    var completedDates: seq<DateRow>
    /** the next AUTOINCREMENT key of `completed_dates` */
    var nextDateId: nat

    /** The table constraints: unique user ids and usernames, unique task ids, fresh date keys. */
    ghost predicate Valid()
      reads this
    {
      && (forall i, j :: 0 <= i < j < |users| ==> users[i].id != users[j].id)
      && (forall i, j :: 0 <= i < j < |users| ==> users[i].username != users[j].username)
      && (forall i, j :: 0 <= i < j < |tasks| ==> tasks[i].id != tasks[j].id)
      && (forall i :: 0 <= i < |completedDates| ==> completedDates[i].id < nextDateId)
    }

    /** `initDb` on a fresh database file: four empty tables. */
    constructor ()
      ensures Valid()
      ensures users == [] && tasks == [] && streaks == map[] && completedDates == []
    {
      users, tasks, streaks, completedDates := [], [], map[], [];
      nextDateId := 1;
    }

    /** `INSERT INTO users`: refused when the id or the username is already taken. */
    method CreateUser(id: string, username: string, createdAt: string) returns (r: Result<UserRow, DbError>)
      requires Valid()
      modifies this`users
      ensures Valid()
      ensures var taken := exists u :: u in old(users) && (u.id == id || u.username == username);
              if taken then r == Err(ConstraintFailed) && users == old(users)
              else r == Ok(UserRow(id, username, createdAt)) && users == old(users) + [r.value]
    {
      var i := 0;
      while i < |users|
        invariant 0 <= i <= |users|
        invariant forall k :: 0 <= k < i ==> users[k].id != id && users[k].username != username
      {
        if users[i].id == id || users[i].username == username {
          return Err(ConstraintFailed);
        }
        i := i + 1;
      }
      r := Ok(UserRow(id, username, createdAt));
      users := users + [r.value];
    }

    /**
     * `INSERT INTO tasks (id, user_id, text, completed, created_at)`: the
     * boolean is stored as 1 or 0 and `completed_at` is left NULL; refused
     * when the id is already taken.
     */
    method CreateTask(task: NewTask) returns (r: Result<NewTask, DbError>)
      requires Valid()
      modifies this`tasks
      ensures Valid()
      ensures var taken := exists t :: t in old(tasks) && t.id == task.id;
              if taken then r == Err(ConstraintFailed) && tasks == old(tasks)
              else r == Ok(task) &&
                   tasks == old(tasks) + [TaskRow(task.id, task.userId, task.text,
                                                 if task.completed then 1 else 0, task.createdAt, None)]
    {
      var i := 0;
      while i < |tasks|
        invariant 0 <= i <= |tasks|
        invariant forall k :: 0 <= k < i ==> tasks[k].id != task.id
      {
        if tasks[i].id == task.id {
          return Err(ConstraintFailed);
        }
        i := i + 1;
      }
      tasks := tasks + [TaskRow(task.id, task.userId, task.text,
                                if task.completed then 1 else 0, task.createdAt, None)];
      r := Ok(task);
    }

    /**
     * `UPDATE tasks SET completed = ?, completed_at = ? WHERE id = ?`, with
     * the boolean stored as 1 or 0. An unknown id is not an error.
     */
    method UpdateTask(id: string, completed: bool, completedAt: Option<string>)
      requires Valid()
      modifies this`tasks
      ensures Valid()
      ensures tasks == SetCompleted(old(tasks), id, if completed then 1 else 0, completedAt)
    {
      tasks := SetCompleted(tasks, id, if completed then 1 else 0, completedAt);
    }

    /** The upsert `INSERT INTO streaks ... ON CONFLICT(user_id) DO UPDATE`. */
    method UpdateStreak(userId: string, currentStreak: int, lastCompletedDate: Option<string>)
      requires Valid()
      modifies this`streaks
      ensures Valid()
      ensures GetStreak(streaks, userId) == StreakRow(currentStreak, lastCompletedDate)
      ensures forall v :: v != userId ==> GetStreak(streaks, v) == GetStreak(old(streaks), v)
      ensures streaks == old(streaks)[userId := StreakRow(currentStreak, lastCompletedDate)]
    {
      streaks := streaks[userId := StreakRow(currentStreak, lastCompletedDate)];
    }

    /** `INSERT INTO completed_dates (user_id, date)`: always one new row, duplicates allowed. */
    method AddCompletedDate(userId: string, date: string)
      requires Valid()
      modifies this`completedDates, this`nextDateId
      ensures Valid()
      ensures completedDates == old(completedDates) + [DateRow(old(nextDateId), userId, date)]
      ensures nextDateId == old(nextDateId) + 1
      ensures DatesOf(completedDates, userId) == DatesOf(old(completedDates), userId) + [date]
      ensures forall v :: v != userId ==> DatesOf(completedDates, v) == DatesOf(old(completedDates), v)
    {
      DatesOfAppend(completedDates, DateRow(nextDateId, userId, date), userId);
      forall v | v != userId
        ensures DatesOf(completedDates + [DateRow(nextDateId, userId, date)], v) == DatesOf(completedDates, v)
      {
        DatesOfAppend(completedDates, DateRow(nextDateId, userId, date), v);
      }
      completedDates := completedDates + [DateRow(nextDateId, userId, date)];
      nextDateId := nextDateId + 1;
    }
  }
}
