# DAILY-TASKS: one focus task a day, with a completion streak

This is a Dafny model of the DAILY-TASKS application. The application lets a user set one focus task a day and complete it. It counts consecutive days of completion and shows the last seven days.

- **Server.** It has an HTTP API over four SQLite tables: users, tasks, streaks and completed_dates.
  - `Database` models the tables and the store helpers (`server/db.js`). Each SELECT is a function of the table it reads. Each INSERT, UPDATE and upsert is a method of the `Db` class, and it may change only the table it names.
  - `Server` models the five request handlers (`server/index.js`):
    - login: get-or-create a user;
    - the current task, with its day-rollover rule;
    - task creation, with its defaults;
    - completion, with deduplication and the streak rule;
    - the streak summary.
  - `Collation` models SQLite's BINARY collation as lexicographic order on strings, proved to be a total order. It also gives the `ORDER BY … DESC LIMIT n` selection as "sort descending, take n". This shows that `getCompletedDates` keeps the greatest strings, which need not be the most recent days.
  - `Calendar` holds the local calendar. `Date.prototype.toDateString` and `new Date(text)` are the two abstract functions of a `Calendar` value. `Coherent` lists what the model assumes about them:
    - rendering a day and parsing the text back gives that day;
    - a rendered day is never empty;
    - `"Invalid Date"` does not parse.
    The millisecond day gap of the completion handler is written out, including the floor division.
- **Client.** It is a React application. Each component is a class. Its fields are the component's state variables, and each handler is a method. A server call that a handler awaits becomes a parameter that holds its answer.
  - `App` models the application shell (`src/App.tsx`).
  - `ActiveTask` models the task card (`src/components/ActiveTask.tsx`).
  - `TaskInput` models the input form (`src/components/TaskInput.tsx`). `JsString` gives JavaScript's `String.prototype.trim`.
  - `StreakTracker` models the streak widget (`src/components/StreakTracker.tsx`).

The clock, the random id generator and the browser's local storage are parameters of the operations that use them.

Where the code differs from the application's documented behaviour, the model follows the code:

- **Login and usernames.** Login refuses only a falsy username, that is, a missing or empty one. A username made only of blanks is accepted.
- **Task text.** The server does not check the text of a created task.
- **Unknown task ids.** Completing an unknown task id is not an error. No row changes, but the completion date is still recorded and the streak is still updated.
- **Streak summary.** The summary's list of dates is not deduplicated. See `Server.SummaryKeepsDuplicateRows`.
- **Foreign keys.** SQLite does not enforce these declarations unless told to. The model therefore gives the FOREIGN KEY declarations no effect.

## Model

| member | source | states |
|---|---|---|
| Database.GetUserByUsername | server/db.js:47-54 | Returns a row of the table with exactly that username; None only when no row has it. |
| Database.Db.constructor | server/db.js:7-43 | `initDb` on a fresh file: all four tables empty, with the table invariants holding. |
| Database.Db.CreateUser | server/db.js:56-67 | Inserts `(id, username, createdAt)` and returns that row. Fails with a constraint error and no change when the id (PRIMARY KEY) or the username (UNIQUE) is taken. |
| Database.GetTaskByUserId | server/db.js:69-81 | None exactly when the user has no task. Otherwise returns one of the user's rows whose `created_at` is greatest in BINARY order. |
| Database.Db.CreateTask | server/db.js:83-94 | Appends the row with `completed` stored as 1/0 and `completed_at` NULL. Fails with no change when the id is taken. |
| Database.SetCompleted | server/db.js:96-107 | Same length. Each row with the given id gets the new `completed` and `completed_at`; every other row is unchanged. |
| Database.SetCompletedUnknownId | server/db.js:96-107 | An id no row carries leaves the table unchanged. |
| Database.Db.UpdateTask | server/db.js:96-107 | The table becomes `SetCompleted` of the old one, with the boolean stored as 1/0; no other table changes. |
| Database.LatestAfterSetCompleted | server/db.js:69-81 | An update does not change which row is the user's most recent one; only that row's completion columns may change. |
| Database.LatestAfterInsert | server/db.js:69-94 | A task created with a `created_at` strictly above the user's earlier ones becomes the user's most recent task. |
| Database.GetStreak | server/db.js:109-116 | Returns the stored row, or the default `(0, NULL)` when the user has none. |
| Database.Db.UpdateStreak | server/db.js:118-132 | Upsert: afterwards `GetStreak` for this user gives the new pair, and every other user's streak is unchanged. |
| Database.Db.AddCompletedDate | server/db.js:134-145 | Appends one row with the next AUTOINCREMENT id and advances the counter by exactly one. The user's dates gain exactly this date at the end; every other user's dates are unchanged. |
| Database.DatesOf | server/db.js:150 | A date is listed exactly when some row of that user carries it. |
| Database.DatesOfAppend | server/db.js:134-150 | Appending a row extends the dates of its user by its date and leaves the others as they were. |
| Database.GetCompletedDates | server/db.js:147-158 | Length is min(limit, number of the user's rows). Every returned date is one of the user's. The list is sorted descending. |
| Database.GetCompletedDatesKeepsLargest | server/db.js:150 | The result is a sub-multiset of the user's dates, and every dropped date sorts at or below every returned one. |
| Database.GetCompletedDatesMembership | server/db.js:147-158 | A date is returned iff it is one of the user's dates and either all fit within the limit or it sorts at or above the limit-th greatest. |
| Database.GetCompletedDatesSeesAll | server/db.js:147-158 | When the user has at most `limit` rows, a date is returned iff it was recorded. |
| Collation.StrLeReflexive | server/db.js:73 | BINARY order is reflexive. |
| Collation.StrLeAntisymmetric | server/db.js:73 | BINARY order is antisymmetric. |
| Collation.StrLeTransitive | server/db.js:73 | BINARY order is transitive. |
| Collation.StrLeTotal | server/db.js:73 | BINARY order is total. |
| Collation.SortDesc | server/db.js:150 | The result is a permutation of the input: same multiset, same length. |
| Collation.SortDescSorted | server/db.js:150 | The result of the sort is in descending order. |
| Collation.InsertSorted | server/db.js:150 | Inserting into a descending list keeps it descending. |
| Collation.SortedDescUnique | server/db.js:150 | Two descending lists with the same elements are equal, so `ORDER BY date DESC` has one answer. |
| Collation.SortedDescHeadIsMax | server/db.js:73 | The head of a descending list is its greatest element. |
| Collation.Take | server/db.js:150 | `LIMIT n` gives a prefix of length min(n, size). |
| Collation.TakeSortedKeepsLargest | server/db.js:150 | From a descending list, `LIMIT n` keeps a sub-multiset, and every dropped element is at or below every kept one. |
| Collation.TakeSortedMembership | server/db.js:150 | Membership in the limited list, stated both ways in terms of the n-th greatest element. |
| Collation.StrLe | server/db.js:73 | BINARY order: a prefix sorts at or below the longer string, and otherwise the first differing code point decides. |
| Calendar.DateText | server/index.js:55 | A date that does not parse renders as `"Invalid Date"`. |
| Calendar.DayGap | server/index.js:113-115 | Defined (not NaN) exactly when both texts parse. |
| Calendar.DayGapOfRenderedDays | server/index.js:113-115 | For two rendered days, the floored millisecond difference equals the difference of the day numbers. |
| Calendar.DayStrInjective | server/index.js:54-57 | Two days render to the same text iff they are the same day. |
| Calendar.DayStrIsValid | server/index.js:55-57 | No day renders as `"Invalid Date"`. |
| Calendar.Weekday | src/components/StreakTracker.tsx:54 | `getDay()` lies in 0..6. |
| Calendar.WeekdayNext | src/components/StreakTracker.tsx:54 | The weekday of the next day is the next weekday, modulo 7. |
| Server.AsTask | server/index.js:60-61 | `completed` becomes true iff the stored number is non-zero; every other field is kept. |
| Server.IsStale | server/index.js:54-57 | The rollover test compares the day texts of creation and today and requires the task to be incomplete: a stale task is always incomplete. |
| Server.IsStaleMeaning | server/index.js:53-57 | A task is hidden iff it is incomplete and was not created today. A creation time that does not parse counts as "not today". |
| Server.NextStreak | server/index.js:109-124 | With no truthy previous date the streak becomes 1; in every case the new streak is 1, the old count or the old count plus one. |
| Server.GetCurrentTask | server/index.js:47-68 | None iff the user has no task, or the most recent one is incomplete and not from today. Otherwise returns that task with a boolean `completed`, whatever its age. Reads the store without changing it. |
| Server.Login | server/index.js:28-44 | A falsy username gives 400 and no change. A known username returns its existing row and adds nothing. An unknown one inserts `(freshId, username, now)`, or gives 500 if `freshId` is taken. |
| Server.RepeatedLogin | server/index.js:28-44 | Logging in twice with one username returns the same row twice and adds at most one row. A user who already exists adds none. |
| Server.CreateTask | server/index.js:71-87 | Inserts an incomplete task. The id and the creation time fall back to the generated ones only when the client sends falsy values. The text is stored as sent. A taken id gives 500 and no change. |
| Server.CreatedTaskIsCurrent | server/index.js:47-87 | A task created today, with a creation time above the user's earlier ones, is the current task, shown as incomplete. |
| Server.CompleteTask | server/index.js:90-133 | Marks the task completed; an unknown id changes no row. If the day text is among the 30 dates `getCompletedDates` returns, history, streak and AUTOINCREMENT counter are untouched. Otherwise one history row is appended, the counter advances by one, and the streak is stored as `NextStreak` with that text as the last date. |
| Server.NextStreakRules | server/index.js:109-126 | With no previous date the streak becomes 1. A gap of one day adds 1. A longer gap resets it to 1. A gap of zero or less keeps it. |
| Server.NextStreakSameDay | server/index.js:104-126 | Completing again on the stored last day never changes the streak. |
| Server.NextStreakAfterInvalidDate | server/index.js:109-126 | With `"Invalid Date"` stored as the last date, the next non-duplicate completion keeps the count (the gap is NaN). It stores its own day as the last date, so a completion on the following day adds 1. |
| Server.NextStreakOnInvalidCompletion | server/index.js:98-121 | A completion time that does not parse gives the day text `"Invalid Date"`; against a stored date the gap is NaN and the count is kept. |
| Server.CompletedTaskStaysCurrent | server/index.js:47-95 | After its completion the user's most recent task stays current, now completed, and no later day hides it. |
| Server.CompleteTwice | server/index.js:90-133 | A second completion for the same instant leaves the streak count where the first put it. |
| Server.GetStreakSummary | server/index.js:136-149 | Returns the stored (or default) streak and `getCompletedDates(userId)`: at most 30 dates, sorted descending. Changes nothing. |
| Server.SummaryKeepsDuplicateRows | server/index.js:139-144 | Two history rows for one day both appear in the summary. |
| StreakTracker.WindowDay | src/components/StreakTracker.tsx:33-36 | Index 6 is today; smaller indices are earlier days. |
| StreakTracker.WindowDayConsecutive | src/components/StreakTracker.tsx:33-36 | The window is in calendar order: each position shows the day after the previous one. |
| StreakTracker.LastSevenDays | src/components/StreakTracker.tsx:29-39 | Exactly seven flags. Flag k is set iff the rendered day `6 - k` days ago is among the fetched dates. |
| StreakTracker.Tracker.LoadStreak | src/components/StreakTracker.tsx:20-46 | With no user id, or when the fetch fails, nothing changes. Otherwise the counter becomes the fetched streak and the flags become the seven-day window. |
| StreakTracker.Tracker.constructor | src/components/StreakTracker.tsx:11-12 | Starts with no day flags and a streak of 0. |
| StreakTracker.DayLabelIndex | src/components/StreakTracker.tsx:49-55 | The label index is the Monday-based weekday of the window day, within the label list. |
| StreakTracker.DayLabelIndexNext | src/components/StreakTracker.tsx:49-55 | Consecutive positions get consecutive Monday-based weekdays, modulo 7. |
| StreakTracker.DayLabel | src/components/StreakTracker.tsx:18-55 | The label is one of M T W T F S S. |
| StreakTracker.StreakUnit | src/components/StreakTracker.tsx:77-79 | "Day" exactly when the streak is 1, "Days" otherwise. |
| StreakTracker.TodayIndicator | src/components/StreakTracker.tsx:152-154 | "✓ Today completed" exactly when today's flag exists and is set, "Today" otherwise. |
| App.AppState.InitSession | src/App.tsx:31-60 | Sends the stored username to login iff a user is stored, and the user id to the task fetch iff login succeeded with a truthy id. Without a stored user, or when login fails, the view is welcome. A successful login sets the user. Then the task fetch decides: a task gives the active view, no task gives input, a failed fetch gives welcome. |
| App.AppState.HandleLogin | src/App.tsx:62-78 | Sets the user and fetches the task for the user id iff it is truthy. With an id, the fetched task decides between the active and input views; a failed fetch gives input. Without an id, nothing else changes. |
| App.AppState.HandleLogout | src/App.tsx:80-85 | User and task cleared; welcome view. |
| App.AppState.HandleTaskSubmit | src/App.tsx:87-97 | Sends `(user id, text)` iff there is a user with a truthy id. A created task becomes active; a failure changes nothing. |
| App.AppState.HandleTaskComplete | src/App.tsx:99-113 | Sends `(task id, user id)` iff there are a task and a user with an id. On success the task is marked completed and the refresh counter goes up by exactly one. |
| App.AppState.HandleNewTask | src/App.tsx:115-118 | Task cleared and the input view shown; the user is kept. |
| App.AppState.constructor | src/App.tsx:23-28 | Starts with no user, no task, the welcome view and a refresh counter of 0. |
| ActiveTask.ActiveTaskState.constructor | src/components/ActiveTask.tsx:14-15 | Starts with the task's completion flag and no confetti. |
| ActiveTask.ActiveTaskState.SyncCompleted | src/components/ActiveTask.tsx:18-20 | The local flag follows the prop. |
| ActiveTask.ActiveTaskState.HandleToggle | src/components/ActiveTask.tsx:22-30 | `onComplete` is called iff the task was not completed yet. Afterwards it is completed, and the confetti is shown when `onComplete` was called. `onComplete` is reported at most once per incomplete period. |
| ActiveTask.ActiveTaskState.HandleConfettiComplete | src/components/ActiveTask.tsx:32-34 | Hides the confetti and changes nothing else. |
| ActiveTask.ActiveTaskState.Render | src/components/ActiveTask.tsx:44-154 | The checkmark, the dimmed text, the strikethrough, the completion message and the "Set tomorrow's focus" button are shown exactly when the task is completed; the confetti ripple exactly while the confetti is on. |
| TaskInput.TaskInputState.HandleChange | src/components/TaskInput.tsx:18-24 | The field holds exactly the typed value, and the signal `(true, Intensity(length))` is sent. |
| TaskInput.TaskInputState.HandleSubmit | src/components/TaskInput.tsx:37-43 | Submits iff the trimmed text is non-empty. Sends the trimmed text, which is non-empty and already trimmed, then signals "not typing" with intensity 1. |
| TaskInput.TaskInputState.HandleKeyDown | src/components/TaskInput.tsx:45-49 | Submits iff the key is Enter and the trimmed text is non-empty. |
| TaskInput.TaskInputState.constructor | src/components/TaskInput.tsx:10 | The field starts empty. |
| TaskInput.Intensity | src/components/TaskInput.tsx:23 | The intensity lies between 1 and 2 and reaches 2 from 50 characters on. |
| TaskInput.IntensityMonotone | src/components/TaskInput.tsx:23 | Longer text never gives a lower intensity. |
| JsString.Trim | src/components/TaskInput.tsx:39-41 | The result neither starts nor ends with white space. |
| JsString.TrimStart | src/components/TaskInput.tsx:39-41 | Drops exactly the leading white space and line terminators. |
| JsString.TrimEnd | src/components/TaskInput.tsx:39-41 | Drops exactly the trailing white space and line terminators. |
| JsString.TrimEmptyIff | src/components/TaskInput.tsx:39 | The text trims to empty iff every character is white space or a line terminator. |
| JsString.TrimIsSlice | src/components/TaskInput.tsx:41 | The trimmed text is a contiguous slice of the input. |
| JsString.TrimIdempotent | src/components/TaskInput.tsx:41 | Trimming twice is trimming once. |
| JsString.IsWhiteSpace | src/components/TaskInput.tsx:39-41 | The characters `trim` strips: ECMA-262 WhiteSpace and LineTerminator code points. |
| Wrappers.OrDefault | server/index.js:75-79 | The default of a JavaScript `or`: the given value when it is truthy, the fallback otherwise. |
| Wrappers.Truthy | server/index.js:31 | JavaScript truthiness of an optional string: present and non-empty (also used at server/index.js:75, 79, 112 and src/App.tsx:64, 88, 100). |

## Left out

- Time zones and daylight saving: the model's day gap is a whole multiple of 24 hours. Across a daylight-saving change the source can floor a 23-hour gap to 0, and that is not captured.
- Concurrency: handlers run one at a time. The SQLite callbacks and React's asynchronous state updates are not interleaved. In particular, two completion requests racing past the duplicate check are not modelled.
- HTTP transport, JSON encoding, status codes and the exact field-name casing of responses: a response is the value the handler computes, and errors are `BadRequest` or `ServerError`.
- The store's own failures (a locked or corrupt database file): the only store error modelled is a constraint violation.
- Random ids, `new Date()` and `toISOString()`: these are parameters (`freshId`, `now`, `today`).
- Local storage (`getStoredUser`, `clearStoredUser`): the stored user is a parameter of `InitSession`, and clearing it is not observed.
- The typing signals of `handleChange` `(true, intensity)` and `handleSubmit` `(false, 1)` are modelled. The 300 ms timer that later sends `(false, 1)` is not, and neither are the sounds, the confetti animation, the spring counter or the styling.
- TaskInput.Intensity: the length is counted in code points, while JavaScript's `value.length` counts UTF-16 code units; the two differ for characters outside the Basic Multilingual Plane.
- `Db.Valid` (unique user ids, usernames and task ids, history ids below the next AUTOINCREMENT value, following server/db.js:10-41) and `AppState.Valid` (the active view has a task, which is why the render guard at src/App.tsx:202 never hides the active view) are invariants that every method keeps. They carry no contract of their own.
- Database.GetTaskByUserId: among several rows with the same greatest `created_at`, SQLite does not say which it returns. The model picks the earliest inserted, and `Server.GetCurrentTask` inherits that choice; the contract of `GetTaskByUserId` itself promises only maximality.
- ActiveTask.ActiveTaskState.SyncCompleted: React runs this effect on mount and whenever `task.completed` changes. The model does not record the previous prop, so it runs whenever it is called.
- The catch-all route that serves `index.html`, and `initDb`'s table creation: the model starts from empty tables.
- WelcomeView.tsx, which produces the user that `handleLogin` receives, is not part of this model.
- Calendar.Coherent: `toDateString` and date parsing are abstract. The model assumes, and does not derive, that parsing a rendered day gives that day back.
- TaskInput.TaskInputState.HandleSubmit: `preventDefault` on the event is not modelled.
