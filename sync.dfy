/** How the client's cache relates to the server's store.  The cache "mirrors"
    the store when it is exactly the list `GET /todos` would return now, read
    as JSON.  Each request the page makes is a server handler followed by the
    client's reaction to its reply; this module proves when that keeps the
    mirror and exhibits the cases where the two tiers drift apart. */
module Sync {
  import opened Todos
  import opened Server
  import opened Client

  /** The todos of a list reply, as the client reads them from the JSON array. */
  function Mirror(vs: seq<Todo>): (r: seq<Entry>)
    ensures |r| == |vs|
    ensures forall i | 0 <= i < |vs| :: r[i] == TodoEntry(vs[i])
  {
    if vs == [] then [] else [TodoEntry(vs[0])] + Mirror(vs[1..])
  }

  /** The JSON body of a create, update or error reply, as the client receives it. */
  function BodyOf(reply: Reply): (e: Entry)
    requires !reply.Listed? && !reply.NoContent?
    ensures e.TodoEntry? <==> reply.Created? || reply.Updated?
    ensures reply.Created? ==> e == TodoEntry(reply.todo)
    ensures reply.BadRequest? ==> e == ErrorEntry(reply.error, None)
  {
    match reply
    case Created(t) => TodoEntry(t)
    case Updated(t) => TodoEntry(t)
    case BadRequest(msg) => ErrorEntry(msg, None)
    case NotFound(msg) => ErrorEntry(msg, None)
  }

  /** Storing a todo under a fresh id and appending its JSON to a mirror
      gives the mirror of the new store. */
  lemma {:induction false} CreateKeepsMirror(todos: map<string, Todo>, order: seq<string>, id: string, task: string)
    requires Consistent(todos, order) && id !in todos
    ensures Mirror(ValuesOf(order + [id], todos[id := Todo(id, task)]))
         == Mirror(ValuesOf(order, todos)) + [TodoEntry(Todo(id, task))]
  {
    var after := Mirror(ValuesOf(order + [id], todos[id := Todo(id, task)]));
    var before := Mirror(ValuesOf(order, todos)) + [TodoEntry(Todo(id, task))];
    forall i | 0 <= i < |after| ensures after[i] == before[i] {
      if i < |order| {
        assert (order + [id])[i] == order[i] != id;
      }
    }
  }

  /** When the server applies the new task, or the stored task was empty
      already, the client's rewrite of a mirror gives the mirror of the
      server's new store. */
  lemma {:induction false} UpdateAgrees(todos: map<string, Todo>, order: seq<string>, id: string, newTask: string)
    requires Consistent(todos, order) && id in todos
    requires newTask != "" || todos[id].task == ""
    ensures ReplaceTask(Mirror(ValuesOf(order, todos)), Some(id), newTask)
         == Mirror(ValuesOf(order, todos[id := todos[id].(task := newTask)]))
  {
    var updated := todos[id := todos[id].(task := newTask)];
    var client := ReplaceTask(Mirror(ValuesOf(order, todos)), Some(id), newTask);
    var server := Mirror(ValuesOf(order, updated));
    forall j | 0 <= j < |client| ensures client[j] == server[j] {
      var k := order[j];
      assert ValuesOf(order, updated)[j] == updated[k];
      assert Mirror(ValuesOf(order, todos))[j] == TodoEntry(todos[k]);
      if k == id {
        assert HasId(TodoEntry(todos[k]), Some(id));
        assert updated[k] == Todo(id, newTask);
      } else {
        assert todos[k].id == k;
        assert !HasId(TodoEntry(todos[k]), Some(id));
        assert updated[k] == todos[k];
      }
    }
  }

  /** An empty task is ignored by the server but written by the client, so a
      todo whose stored task is not empty no longer matches its cached copy. */
  lemma {:induction false} EmptyUpdateDiverges(todos: map<string, Todo>, order: seq<string>, id: string)
    requires Consistent(todos, order) && id in todos && todos[id].task != ""
    ensures ReplaceTask(Mirror(ValuesOf(order, todos)), Some(id), "") != Mirror(ValuesOf(order, todos))
  {
    var i :| 0 <= i < |order| && order[i] == id;
    assert ReplaceTask(Mirror(ValuesOf(order, todos)), Some(id), "")[i] == TodoEntry(Todo(id, ""));
    assert Mirror(ValuesOf(order, todos))[i] == TodoEntry(todos[id]);
  }

  /** The two halves together: the client's rewrite agrees with the server's
      update exactly when the server applies the new task (it is not empty)
      or the stored task was empty already. */
  lemma {:induction false} UpdateAgreesIff(todos: map<string, Todo>, order: seq<string>, id: string, newTask: string)
    requires Consistent(todos, order) && id in todos
    ensures ReplaceTask(Mirror(ValuesOf(order, todos)), Some(id), newTask)
         == Mirror(ValuesOf(order, if newTask != "" then todos[id := todos[id].(task := newTask)] else todos))
      <==> newTask != "" || todos[id].task == ""
  {
    var client := ReplaceTask(Mirror(ValuesOf(order, todos)), Some(id), newTask);
    var serverTodos := if newTask != "" then todos[id := todos[id].(task := newTask)] else todos;
    if newTask != "" || todos[id].task == "" {
      assert serverTodos == todos[id := todos[id].(task := newTask)] by {
        if newTask == "" {
          assert todos[id].(task := newTask) == todos[id];
        }
      }
      UpdateAgrees(todos, order, id, newTask);
      assert client == Mirror(ValuesOf(order, serverTodos));
    } else {
      assert serverTodos == todos && newTask == "";
      EmptyUpdateDiverges(todos, order, id);
      assert client != Mirror(ValuesOf(order, serverTodos));
    }
  }

  /** Whether or not the id is stored, the client's removal from a mirror
      gives the mirror of the store after the server's removal. */
  lemma {:induction false} DeleteKeepsMirror(todos: map<string, Todo>, order: seq<string>, id: string)
    requires forall k | k in order :: k in todos && todos[k].id == k
    ensures RemoveId(Mirror(ValuesOf(order, todos)), Some(id)) == Mirror(ValuesOf(Without(order, id), todos - {id}))
  {
    if order != [] {
      var head := TodoEntry(todos[order[0]]);
      var rest := Mirror(ValuesOf(order[1..], todos));
      DeleteKeepsMirror(todos, order[1..], id);
      assert Mirror(ValuesOf(order, todos)) == [head] + rest;
      RemoveIdConcat([head], rest, Some(id));
      var tail := ValuesOf(Without(order[1..], id), todos - {id});
      if order[0] == id {
        assert RemoveId([head], Some(id)) == [];
        assert Without(order, id) == Without(order[1..], id);
      } else {
        assert RemoveId([head], Some(id)) == [head];
        assert Without(order, id) == [order[0]] + Without(order[1..], id);
        assert ValuesOf(Without(order, id), todos - {id}) == [todos[order[0]]] + tail;
        assert Mirror([todos[order[0]]] + tail) == [head] + Mirror(tail);
      }
    }
  }

  /** After a create was refused, appending the error body leaves a cache
      that mirrors no list the server could ever send. */
  lemma {:induction false} RefusedCreateMirrorsNothing(cache: seq<Entry>, message: string)
    ensures forall vs: seq<Todo> :: cache + [ErrorEntry(message, None)] != Mirror(vs)
  {
    forall vs: seq<Todo> ensures cache + [ErrorEntry(message, None)] != Mirror(vs) {
      var c := cache + [ErrorEntry(message, None)];
      if |c| == |vs| {
        assert c[|cache|] == ErrorEntry(message, None);
        assert Mirror(vs)[|cache|].TodoEntry?;
      }
    }
  }

  /** `deleteTodo(undefined)` drops every error object and keeps every todo,
      so deleting the row of a refused create brings the cache back to the mirror. */
  lemma {:induction false} DeleteErrorRowRestoresMirror(vs: seq<Todo>, message: string, task: Option<string>)
    ensures RemoveId(Mirror(vs) + [ErrorEntry(message, task)], None) == Mirror(vs)
  {
    RemoveIdConcat(Mirror(vs), [ErrorEntry(message, task)], None);
    RemoveAbsentId(Mirror(vs), None);
    assert RemoveId([ErrorEntry(message, task)], None) == [];
  }

  ghost predicate InSync(store: TodoStore, cache: TodoCache)
    reads store, cache
  {
    store.Valid() && cache.todos == Mirror(ValuesOf(store.order, store.todos))
  }

  /** The page loads the list: the cache becomes the server's list and the
      page stops showing "Loading...". */
  method Load(store: TodoStore, cache: TodoCache)
    requires store.Valid()
    modifies cache
    ensures cache.todos == Mirror(ValuesOf(store.order, store.todos))
    ensures InSync(store, cache)
    ensures !cache.loading && cache.error == old(cache.error)
  {
    var reply := store.List();
    cache.FetchTodos(Response(Mirror(reply.todos)));
  }

  /** The page adds a todo whose id the server draws fresh.  A non-empty task
      is stored and appended, and the cache stays in sync; an empty task is
      refused with 400, the store is unchanged, and the client still appends
      the error body, so the cache no longer mirrors the store. */
  method Add(store: TodoStore, cache: TodoCache, task: string, freshId: string)
    requires InSync(store, cache) && freshId !in store.todos
    modifies store, cache`todos
    ensures store.Valid()
    ensures task != "" ==>
      && store.todos == old(store.todos)[freshId := Todo(freshId, task)]
      && store.order == old(store.order) + [freshId]
      && cache.todos == old(cache.todos) + [TodoEntry(Todo(freshId, task))]
      && InSync(store, cache)
    ensures task == "" ==>
      && store.todos == old(store.todos) && store.order == old(store.order)
      && cache.todos == old(cache.todos) + [ErrorEntry(TaskRequired, None)]
      && !InSync(store, cache)
  {
    ghost var todos, order := store.todos, store.order;
    var reply := store.Create(Some(task), freshId);
    cache.AddTodo(Response(BodyOf(reply)));
    if task != "" {
      CreateKeepsMirror(todos, order, freshId, task);
    } else {
      RefusedCreateMirrorsNothing(old(cache.todos), TaskRequired);
    }
  }

  /** The page sends the edited task of a todo when its input loses focus.
      The client rewrites its copy whatever the reply, so the cache stays in
      sync exactly when the id is unknown, the new task is non-empty, or the
      stored task was empty already. */
  method Edit(store: TodoStore, cache: TodoCache, id: string, newTask: string)
    requires InSync(store, cache)
    modifies store, cache`todos
    ensures store.Valid() && store.order == old(store.order)
    ensures store.todos ==
      if id in old(store.todos) && newTask != ""
      then old(store.todos)[id := old(store.todos)[id].(task := newTask)]
      else old(store.todos)
    ensures cache.todos == ReplaceTask(old(cache.todos), Some(id), newTask)
    ensures InSync(store, cache) <==>
      id !in old(store.todos) || newTask != "" || old(store.todos)[id].task == ""
  {
    ghost var todos, order := store.todos, store.order;
    var reply := store.Update(id, Some(newTask));
    cache.UpdateTodo(Some(id), newTask, Response(reply.Status()));
    if id in todos {
      UpdateAgreesIff(todos, order, id, newTask);
    } else {
      var m := Mirror(ValuesOf(order, todos));
      forall i | 0 <= i < |m| ensures !HasId(m[i], Some(id)) {
        assert todos[order[i]].id == order[i];
      }
      assert ReplaceTask(m, Some(id), newTask) == m;
    }
  }

  /** The page deletes a todo.  The client drops its copy whatever the reply,
      and the cache stays in sync whether the server answered 204 or 404. */
  method Remove(store: TodoStore, cache: TodoCache, id: string)
    requires InSync(store, cache)
    modifies store, cache`todos
    ensures store.todos == old(store.todos) - {id}
    ensures store.order == Without(old(store.order), id)
    ensures cache.todos == RemoveId(old(cache.todos), Some(id))
    ensures InSync(store, cache)
  {
    ghost var todos, order := store.todos, store.order;
    var reply := store.Delete(id);
    cache.DeleteTodo(Some(id), Response(reply.Status()));
    DeleteKeepsMirror(todos, order, id);
    if id !in todos {
      DeleteAbsentKeepsStore(todos, order, id);
    }
  }

  /** Deleting a key the store does not hold leaves its entries and its
      insertion order as they are. */
  lemma {:induction false} DeleteAbsentKeepsStore(todos: map<string, Todo>, order: seq<string>, k: string)
    requires Consistent(todos, order) && k !in todos
    ensures todos - {k} == todos
    ensures Without(order, k) == order
  {
    forall i | 0 <= i < |order| ensures order[i] != k {
      assert order[i] in order;
    }
    WithoutAbsent(order, k);
  }

  /** The id a request path carries: `/todos/${id}` turns an `undefined` id
      into the text "undefined". */
  function PathId(id: Option<string>): (p: string)
    ensures id.Some? ==> p == id.value
    ensures id.None? ==> p == "undefined"
  {
    match id
    case Some(s) => s
    case None => "undefined"
  }

  /** The page deletes the row of a refused create.  The row's `id` is
      `undefined`, so the server is asked to delete "undefined"; the client
      drops every error object whatever the reply.  Unless a todo is stored
      under the key "undefined", the cache is back in sync. */
  method RemoveErrorRow(store: TodoStore, cache: TodoCache, message: string)
    requires store.Valid()
    requires cache.todos == Mirror(ValuesOf(store.order, store.todos)) + [ErrorEntry(message, None)]
    modifies store, cache`todos
    ensures store.todos == old(store.todos) - {PathId(None)}
    ensures store.order == Without(old(store.order), PathId(None))
    ensures cache.todos == RemoveId(old(cache.todos), None)
    ensures PathId(None) !in old(store.todos) ==> InSync(store, cache)
  {
    ghost var todos, order := store.todos, store.order;
    var key := PathId(None);
    var reply := store.Delete(key);
    cache.DeleteTodo(None, Response(reply.Status()));
    DeleteErrorRowRestoresMirror(ValuesOf(order, todos), message, None);
    if key !in todos {
      DeleteAbsentKeepsStore(todos, order, key);
    }
  }

  /** The walk-through of the store's life: start empty, create "buy milk",
      list it, rename it to "buy oat milk", list it, delete it, list nothing;
      deleting it again is refused with 404. */
  method Walkthrough(id: string) returns (first: Reply, second: Reply, third: Reply, again: Reply)
    ensures first == Listed([Todo(id, "buy milk")])
    ensures second == Listed([Todo(id, "buy oat milk")])
    ensures third == Listed([])
    ensures again.Status() == 404
  {
    var store := new TodoStore();
    var created := store.Create(Some("buy milk"), id);
    assert created.Status() == 201;
    first := store.List();
    var updated := store.Update(id, Some("buy oat milk"));
    second := store.List();
    var deleted := store.Delete(id);
    assert deleted.Status() == 204;
    third := store.List();
    again := store.Delete(id);
  }
}
