/**
 * The application shell: the `user`, `task`, `viewState` and `streakRefresh`
 * state and its handlers. The answers of the server calls a handler awaits
 * are parameters; a rejected call is `Err`. The typing state handed to the
 * background animation is not modelled.
 */
module App {
  import opened Wrappers

  datatype ViewState = Welcome | Input | Active

  /** The client's user: the id is optional in the client's type. */
  datatype User = User(id: Option<string>, username: string)

  /** The client's task: the fields the handlers use. */
  datatype Task = Task(id: string, text: string, completed: bool)

  /** A server call that was rejected (network failure or an error status). */
  datatype Failure = Failure

  class AppState {
    var user: Option<User>
    var task: Option<Task>
    var viewState: ViewState
    var streakRefresh: int

    /**
     * The active view always has a task to show: this is why the render guard
     * `viewState === 'active' && task` never hides the active view.
     */
    ghost predicate Valid()
      reads this
    {
      viewState == Active ==> task.Some?
    }

    constructor ()
      ensures Valid()
      ensures user == None && task == None && viewState == Welcome && streakRefresh == 0
    {
      user, task, viewState, streakRefresh := None, None, Welcome, 0;
    }

    /**
     * `initSession`: with a stored user, log in again and fetch the current
     * task. A failed login or a failed fetch ends on the welcome view (a user
     * set by a successful login stays set); without a stored user the view is
     * the welcome view. `loginSent` is the username passed to `loginUser`,
     * `fetchSent` the user id passed to `fetchCurrentTask`.
     */
    method InitSession(stored: Option<User>, login: Result<User, Failure>,
                       fetched: Result<Option<Task>, Failure>)
      returns (loginSent: Option<string>, fetchSent: Option<string>)
      requires Valid()
      modifies this
      ensures Valid()
      ensures streakRefresh == old(streakRefresh)
      ensures loginSent == if stored.Some? then Some(stored.value.username) else None
      ensures fetchSent.Some? <==> stored.Some? && login.Ok? && Truthy(login.value.id)
      ensures fetchSent.Some? ==> fetchSent.value == login.value.id.value
      ensures stored.None? || login.Err? ==>
                viewState == Welcome && user == old(user) && task == old(task)
      ensures stored.Some? && login.Ok? ==> user == Some(login.value)
      ensures stored.Some? && login.Ok? && !Truthy(login.value.id) ==>
                viewState == old(viewState) && task == old(task)
      ensures stored.Some? && login.Ok? && Truthy(login.value.id) ==>
                match fetched
                case Err(_) => viewState == Welcome && task == old(task)
                case Ok(None) => viewState == Input && task == old(task)
                case Ok(Some(t)) => viewState == Active && task == Some(t)
    {
      loginSent, fetchSent := None, None;
      if stored.Some? {
        loginSent := Some(stored.value.username);
        if login.Err? {
          viewState := Welcome;
          return;
        }
        var userData := login.value;
        user := Some(userData);
        if Truthy(userData.id) {
          fetchSent := Some(userData.id.value);
          if fetched.Err? {
            viewState := Welcome;
            return;
          }
          var currentTask := fetched.value;
          if currentTask.Some? {
            task := currentTask;
            viewState := Active;
          } else {
            viewState := Input;
          }
        }
      } else {
        viewState := Welcome;
      }
    }

    /**
     * `handleLogin`: the user is set; with an id, the current task is
     * fetched: active with one, input without one or when the fetch fails.
     * `fetchSent` is the user id passed to `fetchCurrentTask`.
     */
    method HandleLogin(newUser: User, fetched: Result<Option<Task>, Failure>)
      returns (fetchSent: Option<string>)
      requires Valid()
      modifies this
      ensures Valid()
      ensures user == Some(newUser) && streakRefresh == old(streakRefresh)
      ensures fetchSent == if Truthy(newUser.id) then Some(newUser.id.value) else None
      ensures !Truthy(newUser.id) ==> viewState == old(viewState) && task == old(task)
      ensures Truthy(newUser.id) ==>
                if fetched.Ok? && fetched.value.Some?
                then viewState == Active && task == fetched.value
                else viewState == Input && task == old(task)
    {
      user := Some(newUser);
      fetchSent := None;
      if Truthy(newUser.id) {
        fetchSent := Some(newUser.id.value);
        if fetched.Ok? && fetched.value.Some? {
          task := fetched.value;
          viewState := Active;
        } else {
          viewState := Input;
        }
      }
    }

    /** `handleLogout`: from any state, no user, no task, welcome view. */
    method HandleLogout()
      requires Valid()
      modifies this
      ensures Valid()
      ensures user == None && task == None && viewState == Welcome
      ensures streakRefresh == old(streakRefresh)
    {
      user := None;
      task := None;
      viewState := Welcome;
    }

    /**
     * `handleTaskSubmit`: without a user id nothing happens and nothing is
     * sent; otherwise `(user id, text)` is sent and a created task becomes the
     * active one. A failed creation changes nothing.
     */
    method HandleTaskSubmit(taskText: string, created: Result<Task, Failure>)
      returns (sent: Option<(string, string)>)
      requires Valid()
      modifies this
      ensures Valid()
      ensures user == old(user) && streakRefresh == old(streakRefresh)
      ensures sent.Some? <==> old(user).Some? && Truthy(old(user).value.id)
      ensures sent.Some? ==> sent.value == (old(user).value.id.value, taskText)
      ensures if sent.Some? && created.Ok?
              then viewState == Active && task == Some(created.value)
              else viewState == old(viewState) && task == old(task)
    {
      sent := None;
      if user.None? || !Truthy(user.value.id) {
        return;
      }
      sent := Some((user.value.id.value, taskText));
      if created.Ok? {
        task := Some(created.value);
        viewState := Active;
      }
    }

    /**
     * `handleTaskComplete`: without a task or a user id nothing happens and
     * nothing is sent; otherwise `(task id, user id)` is sent and, when the
     * server accepts, the task shows as completed and the streak refresh
     * counter goes up by exactly one.
     */
    method HandleTaskComplete(completed: Result<(), Failure>) returns (sent: Option<(string, string)>)
      requires Valid()
      modifies this
      ensures Valid()
      ensures user == old(user) && viewState == old(viewState)
      ensures sent.Some? <==> old(task).Some? && old(user).Some? && Truthy(old(user).value.id)
      ensures sent.Some? ==> sent.value == (old(task).value.id, old(user).value.id.value)
      ensures if sent.Some? && completed.Ok?
              then task == Some(old(task).value.(completed := true)) && streakRefresh == old(streakRefresh) + 1
              else task == old(task) && streakRefresh == old(streakRefresh)
    {
      sent := None;
      if task.None? || user.None? || !Truthy(user.value.id) {
        return;
      }
      sent := Some((task.value.id, user.value.id.value));
      if completed.Ok? {
        task := Some(task.value.(completed := true));
        streakRefresh := streakRefresh + 1;
      }
    }

    /** `handleNewTask`: the task is dropped and the input view shown. */
    method HandleNewTask()
      requires Valid()
      modifies this
      ensures Valid()
      ensures task == None && viewState == Input
      ensures user == old(user) && streakRefresh == old(streakRefresh)
    {
      task := None;
      viewState := Input;
    }
  }
}
