/** The client's local mirror of the todo list (`useTodos`) and the choice of
    what the page shows.  The list is whatever JSON the client was handed, so
    an element is either a todo or the error object of a failed create. */
module Client {
  import opened Todos

  /** The message the client shows when fetching the list failed. */
  const FetchFailed := "Something went wrong"

  /** One element of the cached list: a todo, or a `{ "error": … }` body that
      `addTodo` appended.  An error object has no `id`; it has a `task` only
      once an edit of its row has written one into it. */
  datatype Entry = TodoEntry(todo: Todo) | ErrorEntry(error: string, task: Option<string>)

  /** What an awaited request produced: a response value, or a thrown failure
      (network error or a body that is not JSON). */
  datatype Outcome<T> = Response(value: T) | Failure

  /** `todo.id === id`, where the id the page passes is the `id` of a row:
      a string for a todo, `undefined` (`None`) for an error object.  A string
      id matches exactly the todos with that id; `undefined` matches exactly
      the error objects. */
  predicate HasId(e: Entry, id: Option<string>)
  {
    match id
    case Some(s) => e.TodoEntry? && e.todo.id == s
    case None => e.ErrorEntry?
  }

  /** `{ ...todo, task: newTask }`: the same object kind with the task written. */
  function WithTask(e: Entry, newTask: string): Entry
  {
    match e
    case TodoEntry(t) => TodoEntry(t.(task := newTask))
    case ErrorEntry(msg, _) => ErrorEntry(msg, Some(newTask))
  }

  /** The updater of `updateTodo`: every element with the id becomes a copy
      with the new task, every other element stays, the order is kept.  For a
      string id the copy is the todo `{ id, task: newTask }`; for `undefined`
      it is the error object with `task: newTask` added. */
  function ReplaceTask(prev: seq<Entry>, id: Option<string>, newTask: string): (r: seq<Entry>)
    ensures |r| == |prev|
    ensures forall i | 0 <= i < |prev| :: r[i] == if HasId(prev[i], id) then WithTask(prev[i], newTask) else prev[i]
    ensures id.Some? ==> forall i | 0 <= i < |prev| && HasId(prev[i], id) :: r[i] == TodoEntry(Todo(id.value, newTask))
    ensures id.None? ==> forall i | 0 <= i < |prev| && HasId(prev[i], id) :: r[i] == ErrorEntry(prev[i].error, Some(newTask))
  {
    if prev == [] then []
    else
      var head := if HasId(prev[0], id) then WithTask(prev[0], newTask) else prev[0];
      [head] + ReplaceTask(prev[1..], id, newTask)
  }

  /** The updater of `deleteTodo`: the elements with the id are dropped. */
  function RemoveId(prev: seq<Entry>, id: Option<string>): (r: seq<Entry>)
    ensures forall e :: e in r <==> e in prev && !HasId(e, id)
    ensures |r| <= |prev|
  {
    if prev == [] then []
    else if HasId(prev[0], id) then RemoveId(prev[1..], id)
    else [prev[0]] + RemoveId(prev[1..], id)
  }

  /** Dropping an id works piece by piece, so what remains keeps its relative order. */
  lemma {:induction false} RemoveIdConcat(a: seq<Entry>, b: seq<Entry>, id: Option<string>)
    ensures RemoveId(a + b, id) == RemoveId(a, id) + RemoveId(b, id)
  {
    if a == [] {
      assert a + b == b;
    } else {
      assert (a + b)[1..] == a[1..] + b;
      RemoveIdConcat(a[1..], b, id);
    }
  }

  /** A list with no element of the id is left as it is. */
  lemma {:induction false} RemoveAbsentId(prev: seq<Entry>, id: Option<string>)
    requires forall i | 0 <= i < |prev| :: !HasId(prev[i], id)
    ensures RemoveId(prev, id) == prev
  {
    if prev != [] {
      RemoveAbsentId(prev[1..], id);
    }
  }

  /** Deleting twice is deleting once. */
  lemma {:induction false} RemoveIdIdempotent(prev: seq<Entry>, id: Option<string>)
    ensures RemoveId(RemoveId(prev, id), id) == RemoveId(prev, id)
  {
    var r := RemoveId(prev, id);
    forall i | 0 <= i < |r| ensures !HasId(r[i], id) {
      assert r[i] in r;
    }
    RemoveAbsentId(r, id);
  }

  /** Deleting an id after updating it is the same as only deleting it. */
  lemma {:induction false} RemoveAfterReplace(prev: seq<Entry>, id: Option<string>, newTask: string)
    ensures RemoveId(ReplaceTask(prev, id, newTask), id) == RemoveId(prev, id)
  {
    if prev != [] {
      RemoveAfterReplace(prev[1..], id, newTask);
      assert ReplaceTask(prev, id, newTask)[1..] == ReplaceTask(prev[1..], id, newTask);
    }
  }

  /** Two updates of the same id: the last one wins. */
  lemma ReplaceLastWins(prev: seq<Entry>, id: Option<string>, first: string, second: string)
    ensures ReplaceTask(ReplaceTask(prev, id, first), id, second) == ReplaceTask(prev, id, second)
  {
  }

  /** What the page shows below the input row. */
  datatype View = ErrorMessage(message: string) | TodoList(items: seq<Entry>) | NoTodos | Loading

  /** The `Switch` of the page: a truthy error wins; otherwise, once loading
      is over, the list, or "No todos" for an empty list; otherwise "Loading...". */
  function Render(todos: seq<Entry>, loading: bool, error: Option<string>): (v: View)
    ensures v.ErrorMessage? <==> Truthy(error)
    ensures v.ErrorMessage? ==> v.message == error.value
    ensures v.TodoList? <==> !Truthy(error) && !loading && todos != []
    ensures v.TodoList? ==> v.items == todos
    ensures v.NoTodos? <==> !Truthy(error) && !loading && todos == []
    ensures v.Loading? <==> !Truthy(error) && loading
  {
    if Truthy(error) then ErrorMessage(error.value)
    else if !loading then (if todos == [] then NoTodos else TodoList(todos))
    else Loading
  }

  /** The state of `useTodos`: the cached list, the loading flag and the error. */
  class TodoCache {
    var todos: seq<Entry>
    var loading: bool
    var error: Option<string>

    /** The signals' initial values: no todos, loading, no error. */
    constructor ()
      ensures todos == [] && loading && error == None
    {
      todos := [];
      loading := true;
      error := None;
    }

    /** `fetchTodos`: loading is switched on, then the outcome of `GET /todos`
        is taken in.  A response replaces the list; a failure sets the error
        message and keeps the list.  Loading ends either way, and a success
        does not clear an earlier error. */
    method FetchTodos(outcome: Outcome<seq<Entry>>)
      modifies this
      ensures !loading
      ensures outcome.Response? ==> todos == outcome.value && error == old(error)
      ensures outcome.Failure? ==> todos == old(todos) && error == Some(FetchFailed)
    {
      loading := true;
      match outcome
      case Response(json) =>
        todos := json;
        loading := false;
      case Failure =>
        error := Some(FetchFailed);
        loading := false;
    }

    /** `addTodo`: whatever body the POST answered with is appended at the
        end; a failure changes nothing. */
    method AddTodo(outcome: Outcome<Entry>)
      modifies this`todos
      ensures outcome.Response? ==> todos == old(todos) + [outcome.value]
      ensures outcome.Failure? ==> todos == old(todos)
    {
      if outcome.Response? {
        todos := todos + [outcome.value];
      }
    }

    /** `updateTodo`: once the PUT has answered, with any status, every cached
        element with the id gets the new task, even an empty one; only a
        failure leaves the list alone. */
    method UpdateTodo(id: Option<string>, newTask: string, outcome: Outcome<int>)
      modifies this`todos
      ensures outcome.Response? ==> todos == ReplaceTask(old(todos), id, newTask)
      ensures outcome.Failure? ==> todos == old(todos)
    {
      if outcome.Response? {
        todos := ReplaceTask(todos, id, newTask);
      }
    }

    /** `deleteTodo`: once the DELETE has answered, with any status, every
        cached element with the id is dropped; only a failure leaves the list alone. */
    method DeleteTodo(id: Option<string>, outcome: Outcome<int>)
      modifies this`todos
      ensures outcome.Response? ==> todos == RemoveId(old(todos), id)
      ensures outcome.Failure? ==> todos == old(todos)
    {
      if outcome.Response? {
        todos := RemoveId(todos, id);
      }
    }

    /** What the page shows for the current state. */
    function View(): (v: View)
      reads this
      ensures v.ErrorMessage? <==> Truthy(error)
      ensures v.TodoList? ==> v.items == todos
    {
      Render(todos, loading, error)
    }
  }
}
