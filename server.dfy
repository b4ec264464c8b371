/** The backend's in-memory todo store and its four `/todos` handlers.
    The store is a JavaScript `Map<string, Todo>`, which remembers the order in
    which keys were first inserted: `todos` holds the entries and `order` the
    keys in insertion order, so that listing returns the values in the order
    `Map.prototype.values()` yields them. */
module Server {
  import opened Todos

  /** The body of the 400 reply to a create without a task. */
  const TaskRequired := "Task is required"
  /** The body of the 404 reply to an update or delete of an unknown id. */
  const TodoNotFound := "Todo not found"

  /** What a handler sends back: its HTTP status and its JSON body, if any. */
  datatype Reply =
    | Listed(todos: seq<Todo>)
    | Created(todo: Todo)
    | Updated(todo: Todo)
    | NoContent
    | BadRequest(error: string)
    | NotFound(error: string)
  {
    function Status(): int
    {
      match this
      case Listed(_) => 200
      case Created(_) => 201
      case Updated(_) => 200
      case NoContent => 204
      case BadRequest(_) => 400
      case NotFound(_) => 404
    }
  }

  predicate Distinct<T(==)>(s: seq<T>)
  {
    forall i, j | 0 <= i < j < |s| :: s[i] != s[j]
  }

  /** The store's invariant: every key is remembered once in the insertion
      order, the order holds no other keys, and each todo is stored under its
      own id. */
  ghost predicate Consistent(todos: map<string, Todo>, order: seq<string>)
  {
    && Distinct(order)
    && (forall k :: k in order <==> k in todos)
    && (forall k | k in todos :: todos[k].id == k)
  }

  /** `Array.from(todosMap.values())`: the stored todos, in the insertion order
      of their keys. */
  function ValuesOf(order: seq<string>, todos: map<string, Todo>): (r: seq<Todo>)
    requires forall k | k in order :: k in todos
    ensures |r| == |order|
    ensures forall i | 0 <= i < |order| :: r[i] == todos[order[i]]
  {
    if order == [] then [] else [todos[order[0]]] + ValuesOf(order[1..], todos)
  }

  /** The insertion order after `todosMap.delete(k)`: `k` is gone and the other
      keys keep their relative order. */
  function Without(order: seq<string>, k: string): (r: seq<string>)
    ensures forall x :: x in r <==> x in order && x != k
    ensures |r| <= |order|
  {
    if order == [] then []
    else if order[0] == k then Without(order[1..], k)
    else [order[0]] + Without(order[1..], k)
  }

  /** Removing a key that is not there leaves the insertion order as it is. */
  lemma {:induction false} WithoutAbsent(order: seq<string>, k: string)
    requires forall i | 0 <= i < |order| :: order[i] != k
    ensures Without(order, k) == order
  {
    if order != [] {
      WithoutAbsent(order[1..], k);
    }
  }

  /** Removing a key works piece by piece, so the other keys keep their
      relative order. */
  lemma {:induction false} WithoutConcat(a: seq<string>, b: seq<string>, k: string)
    ensures Without(a + b, k) == Without(a, k) + Without(b, k)
  {
    if a == [] {
      assert a + b == b;
    } else {
      assert (a + b)[1..] == a[1..] + b;
      WithoutConcat(a[1..], b, k);
    }
  }

  /** Removing a key keeps the insertion order free of repetitions. */
  lemma {:induction false} WithoutDistinct(order: seq<string>, k: string)
    requires Distinct(order)
    ensures Distinct(Without(order, k))
  {
    if order != [] {
      assert Distinct(order[1..]) by {
        forall i, j | 0 <= i < j < |order[1..]| ensures order[1..][i] != order[1..][j] {
          assert order[1..][i] == order[i + 1] && order[1..][j] == order[j + 1];
        }
      }
      WithoutDistinct(order[1..], k);
      if order[0] != k {
        var rest := Without(order[1..], k);
        assert order[0] !in rest by {
          forall j | 0 <= j < |order[1..]| ensures order[1..][j] != order[0] {
            assert order[1..][j] == order[j + 1];
          }
        }
        var r := [order[0]] + rest;
        forall i, j | 0 <= i < j < |r| ensures r[i] != r[j] {
          if i == 0 {
            assert r[j] == rest[j - 1];
          } else {
            assert r[i] == rest[i - 1] && r[j] == rest[j - 1];
          }
        }
      }
    }
  }

  /** A sequence without repetitions has as many distinct elements as it is long. */
  lemma {:induction false} DistinctCardinality<T>(s: seq<T>)
    requires Distinct(s)
    ensures |set x | x in s| == |s|
  {
    if s != [] {
      var tail := s[1..];
      assert Distinct(tail) by {
        forall i, j | 0 <= i < j < |tail| ensures tail[i] != tail[j] {
          assert tail[i] == s[i + 1] && tail[j] == s[j + 1];
        }
      }
      DistinctCardinality(tail);
      assert s[0] !in tail by {
        forall j | 0 <= j < |tail| ensures tail[j] != s[0] {
          assert tail[j] == s[j + 1];
        }
      }
      assert (set x | x in s) == (set x | x in tail) + {s[0]} by {
        assert s == [s[0]] + tail;
      }
    }
  }

  /** The list reply holds exactly the stored todos: one element per key,
      every element a stored todo, every stored todo an element, and no id twice. */
  lemma {:induction false} ListIsExact(todos: map<string, Todo>, order: seq<string>)
    requires Consistent(todos, order)
    ensures |ValuesOf(order, todos)| == |todos|
    ensures forall t :: t in ValuesOf(order, todos) <==> t in todos.Values
    ensures forall i, j | 0 <= i < j < |order| :: ValuesOf(order, todos)[i].id != ValuesOf(order, todos)[j].id
  {
    var r := ValuesOf(order, todos);
    assert |todos| == |order| by {
      DistinctCardinality(order);
      assert (set x | x in order) == todos.Keys;
    }
    forall t | t in todos.Values ensures t in r {
      var k :| k in todos && todos[k] == t;
      var i :| 0 <= i < |order| && order[i] == k;
      assert r[i] == t;
    }
    forall i, j | 0 <= i < j < |order| ensures r[i].id != r[j].id {
      assert r[i].id == order[i] && r[j].id == order[j];
    }
  }

  /** The backend's `todosMap` together with the handlers that read and change it. */
  class TodoStore {
    var todos: map<string, Todo>
    var order: seq<string>

    ghost predicate Valid()
      reads this
    {
      Consistent(todos, order)
    }

    /** The store starts empty when the process starts. */
    constructor ()
      ensures Valid() && todos == map[] && order == []
    {
      todos := map[];
      order := [];
    }

    /** `GET /todos`: 200 with every stored todo, in insertion order; nothing changes. */
    method List() returns (r: Reply)
      requires Valid()
      ensures r.Status() == 200 && r.Listed?
      ensures r.todos == ValuesOf(order, todos)
      ensures |r.todos| == |todos|
      ensures forall t :: t in r.todos <==> t in todos.Values
    {
      r := Listed(ValuesOf(order, todos));
      ListIsExact(todos, order);
    }

    /** `POST /todos`: a falsy task is refused with 400 and nothing changes;
        otherwise a todo with the id `freshId` (the server draws it from
        `randomUUID`) is stored with `Map.set` and returned with 201.  A key
        that is new goes to the end of the insertion order; one already present
        keeps its place and its value is replaced. */
    method Create(task: Option<string>, freshId: string) returns (r: Reply)
      requires Valid()
      modifies this
      ensures Valid()
      ensures r.Status() == (if Truthy(task) then 201 else 400)
      ensures !Truthy(task) ==>
        r == BadRequest(TaskRequired) && todos == old(todos) && order == old(order)
      ensures Truthy(task) ==>
        && r == Created(Todo(freshId, task.value))
        && todos == old(todos)[freshId := Todo(freshId, task.value)]
        && order == (if freshId in old(todos) then old(order) else old(order) + [freshId])
        && (freshId !in old(todos) ==> |todos| == |old(todos)| + 1)
    {
      if !Truthy(task) {
        return BadRequest(TaskRequired);
      }
      var newTodo := Todo(freshId, task.value);
      if freshId !in todos {
        order := order + [freshId];
      }
      todos := todos[freshId := newTodo];
      r := Created(newTodo);
    }

    /** `PUT /todos/:id`: an unknown id is refused with 404; otherwise the
        stored todo's task is overwritten when the new task is truthy and left
        as it is when not, and the stored todo is returned with 200.  The
        insertion order never changes. */
    method Update(id: string, task: Option<string>) returns (r: Reply)
      requires Valid()
      modifies this
      ensures Valid() && order == old(order)
      ensures r.Status() == (if id in old(todos) then 200 else 404)
      ensures id !in old(todos) ==> r == NotFound(TodoNotFound) && todos == old(todos)
      ensures id in old(todos) ==>
        && todos == (if Truthy(task) then old(todos)[id := old(todos)[id].(task := task.value)] else old(todos))
        && r == Updated(todos[id])
        && todos[id].id == id
    {
      if id !in todos {
        return NotFound(TodoNotFound);
      }
      if Truthy(task) {
        todos := todos[id := todos[id].(task := task.value)];
      }
      r := Updated(todos[id]);
    }

    /** `DELETE /todos/:id`: an unknown id is refused with 404 and nothing
        changes; otherwise exactly that key is removed and 204 is sent with no body. */
    method Delete(id: string) returns (r: Reply)
      requires Valid()
      modifies this
      ensures Valid() && id !in todos
      ensures r.Status() == (if id in old(todos) then 204 else 404)
      ensures id !in old(todos) ==>
        r == NotFound(TodoNotFound) && todos == old(todos) && order == old(order)
      ensures id in old(todos) ==>
        && r == NoContent
        && todos == old(todos) - {id}
        && |todos| == |old(todos)| - 1
        && order == Without(old(order), id)
    {
      if id !in todos {
        return NotFound(TodoNotFound);
      }
      WithoutDistinct(order, id);
      todos := todos - {id};
      order := Without(order, id);
      r := NoContent;
    }
  }
}
