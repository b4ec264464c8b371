# Todo store and client cache, modelled in Dafny

This project models a two-tier todo-list application. An Express backend keeps
todos in an in-memory `Map<string, Todo>` and serves them over `GET`, `POST`,
`PUT` and `DELETE` on `/todos`. A SolidJS page keeps a local copy of the list
(`useTodos`) and edits it after each request it makes.

- `todos.dfy` (module `Todos`): the `Todo` record `{ id, task }`, an `Option`
  for the request body's `task` field, and JavaScript truthiness of that field
  (`undefined` and `""` are falsy).
- `server.dfy` (module `Server`): the class `TodoStore` holds `todosMap` as a
  `map` from id to todo plus the keys in insertion order. A JavaScript `Map`
  lists its values in that order. Its four handlers return a `Reply` that
  carries the HTTP status (200, 201, 204, 400, 404) and the JSON body. The
  object invariant `Valid` says each key appears once in the order and each
  todo is stored under its own id. Every handler preserves it.
- `client.dfy` (module `Client`): the class `TodoCache` holds the state record
  `(todos, loading, error)`. Its steps `FetchTodos`, `AddTodo`, `UpdateTodo`
  and `DeleteTodo` take the outcome of their request as a parameter: a response
  value or `Failure`. The list updaters (`ReplaceTask`, `RemoveId`) and the
  view choice (`Render`) are functions with lemmas. A cached element is an
  `Entry`: either a todo or an error object, because `addTodo` appends
  whatever JSON it receives. The id a row passes to `updateTodo` and
  `deleteTodo` is an optional string: a todo's id, or `undefined` (`None`)
  for an error object, which has no `id` field. `undefined` matches exactly
  the error objects, so an edit of an error row writes a `task` into it and
  a delete of it drops every error object.
- `sync.dfy` (module `Sync`): relates the two tiers. The cache *mirrors* the
  store when it equals the list `GET /todos` would return. One lemma per
  request says when the client's reaction keeps that relation, and where it
  breaks:
  - an empty edited task is ignored by the server but written by the client
    (`Sync.EmptyUpdateDiverges`, `Sync.Edit`);
  - the client appends the error body of a refused create as if it were a todo
    (`Sync.RefusedCreateMirrorsNothing`, `Sync.Add`). Deleting that row asks
    the server to delete the key "undefined" and brings the cache back in
    sync unless a todo is stored under that key
    (`Sync.DeleteErrorRowRestoresMirror`, `Sync.RemoveErrorRow`).

  The client also applies an edit or a delete whatever status came back; that
  is stated by `Client.TodoCache.UpdateTodo` and `Client.TodoCache.DeleteTodo`.
  While the cache mirrors the store this does no harm: a 404 means the id is
  not stored, so the mirror holds no element with it and the rewrite or filter
  changes nothing (`Sync.Edit`, `Sync.Remove`). It would matter only for a
  cache that had fallen behind the store, which needs a second client,
  requests completing out of order, or a request the server applied whose
  reply was lost. The model covers none of these.

  The ensures of `Sync.Walkthrough` give the three lists a fresh store
  returns after a create, an update and a delete, and the 404 of a second
  delete.

The id that the server draws from `webcrypto.randomUUID()` is a parameter
(`freshId`). Network outcomes are parameters too.

## Model

| member | source | states |
|---|---|---|
| `Server.ValuesOf` | backend/src/server.ts:27 | the listed values are, position by position, the stored todos of the keys in insertion order |
| `Server.Without` | backend/src/server.ts:65 | after `Map.delete` the insertion order holds exactly the other keys and is no longer |
| `Server.WithoutConcat` | backend/src/server.ts:65 | deleting a key works piece by piece over a split of the order, so the remaining keys keep their relative order |
| `Server.WithoutAbsent` | backend/src/server.ts:65 | deleting a key that is not in the order leaves the order unchanged |
| `Server.WithoutDistinct` | backend/src/server.ts:65 | deleting a key keeps the insertion order free of repeated keys |
| `Server.ListIsExact` | backend/src/server.ts:26-29 | the list has one element per stored key, contains every stored todo and nothing else, and no id occurs twice |
| `Server.TodoStore.constructor` | backend/src/server.ts:13 | the store starts empty and satisfies its invariant |
| `Server.TodoStore.List` | backend/src/server.ts:26-29 | status 200; the body is the stored todos in insertion order, exactly the map's values, as many as there are keys; the store is not changed |
| `Server.TodoStore.Create` | backend/src/server.ts:32-43 | a missing or empty task gives 400 "Task is required" and no change; otherwise 201 with `{id: freshId, task}`, that todo stored under `freshId`, all other entries unchanged, one more key when `freshId` was new; the invariant is kept |
| `Server.TodoStore.Update` | backend/src/server.ts:46-57 | an unknown id gives 404 "Todo not found" and no change; a known id gives 200 with the stored todo, whose task is replaced only when the new task is truthy; the id is kept and other entries and the order are unchanged |
| `Server.TodoStore.Delete` | backend/src/server.ts:60-67 | an unknown id gives 404 and no change; a known id gives 204 and removes exactly that key, one fewer entry, the order keeps the rest; afterwards the id is absent, so a second delete gets 404 |
| `Client.ReplaceTask` | frontend/src/App.tsx:57-59 | the `updateTodo` updater keeps length and order; for a string id each todo with that id becomes a todo with that id and the new task, even an empty one; for `undefined` each error object gets the new task; every other element is unchanged |
| `Client.RemoveId` | frontend/src/App.tsx:70 | the `deleteTodo` updater keeps exactly the elements the id does not match: for a string id, the todos with that id are dropped; for `undefined`, every error object |
| `Client.RemoveIdConcat` | frontend/src/App.tsx:70 | filtering distributes over concatenation, so the kept elements stay in their original relative order |
| `Client.RemoveAbsentId` | frontend/src/App.tsx:70 | a list with no element of that id is unchanged by the filter |
| `Client.RemoveIdIdempotent` | frontend/src/App.tsx:70 | deleting the same id twice on the client equals deleting it once |
| `Client.RemoveAfterReplace` | frontend/src/App.tsx:57-59 | deleting an id after updating it gives the same list as deleting it directly |
| `Client.ReplaceLastWins` | frontend/src/App.tsx:57-59 | of two updates to the same id, only the last one's task remains |
| `Client.Render` | frontend/src/App.tsx:115-141 | the error shows exactly when the error is truthy; otherwise the list shows exactly when loading is over and the list is not empty, "No todos" when it is empty, and "Loading..." exactly while loading |
| `Client.TodoCache.constructor` | frontend/src/App.tsx:10-12 | the state starts with no todos, loading on and no error |
| `Client.TodoCache.FetchTodos` | frontend/src/App.tsx:14-26 | loading ends either way; a response replaces the list and leaves the error as it was; a failure keeps the list and sets "Something went wrong" |
| `Client.TodoCache.AddTodo` | frontend/src/App.tsx:32-46 | a received body is appended at the end, after the old list unchanged; a failure changes nothing |
| `Client.TodoCache.UpdateTodo` | frontend/src/App.tsx:48-63 | any status leads to the `ReplaceTask` rewrite; only a failure leaves the list unchanged |
| `Client.TodoCache.DeleteTodo` | frontend/src/App.tsx:65-74 | any status leads to the `RemoveId` filter; only a failure leaves the list unchanged |
| `Client.TodoCache.View` | frontend/src/App.tsx:115-141 | the page shows the error exactly when the error is truthy, and a shown list is the cached list |
| `Sync.Mirror` | frontend/src/App.tsx:18-19 | the client reads a list body as one todo element per listed todo, in order |
| `Sync.BodyOf` | backend/src/server.ts:35 | the body the client receives is a todo exactly for 201/200 replies, and the error object for a 400 |
| `Sync.CreateKeepsMirror` | frontend/src/App.tsx:42 | appending the created todo to a mirror gives the mirror of the store after storing it under a fresh id |
| `Sync.UpdateAgrees` | frontend/src/App.tsx:57-59 | when the server applies the task, or the stored task was already empty, the client's rewrite gives the mirror of the updated store |
| `Sync.EmptyUpdateDiverges` | backend/src/server.ts:53-55 | an empty task is ignored by the server but written by the client, so a non-empty stored task no longer matches the cache |
| `Sync.UpdateAgreesIff` | frontend/src/App.tsx:57-59 | the client's rewrite agrees with the server's update if and only if the new task is non-empty or the stored task was empty |
| `Sync.DeleteKeepsMirror` | frontend/src/App.tsx:70 | whether or not the id is stored, filtering a mirror gives the mirror of the store after the server's delete |
| `Sync.DeleteErrorRowRestoresMirror` | frontend/src/App.tsx:70 | deleting with an `undefined` id from a mirror with an error object appended gives the mirror back |
| `Sync.DeleteAbsentKeepsStore` | backend/src/server.ts:62-65 | a delete of a key the store does not hold leaves its entries and its insertion order unchanged |
| `Sync.PathId` | frontend/src/App.tsx:67 | the path of a request carries a string id as it is and an `undefined` id as the text "undefined" |
| `Sync.RefusedCreateMirrorsNothing` | frontend/src/App.tsx:41-42 | after a refused create, the cache with the appended error body equals no list the server can send |
| `Sync.Load` | frontend/src/App.tsx:14-20 | after loading, the cache is the mirror of the unchanged store, loading is over and the error is unchanged |
| `Sync.Add` | frontend/src/App.tsx:32-46 | a non-empty task stores the todo under the fresh id at the end of the order, appends the same todo at the end of the cache, and keeps them in sync; an empty one gets 400 and leaves the store unchanged, yet the error body is appended and the cache is out of sync; loading and error never change |
| `Sync.Edit` | frontend/src/App.tsx:48-63 | the store changes as the update handler says (task replaced only for a stored id and a non-empty task, order kept); the cache gets the `ReplaceTask` rewrite whatever the status; they stay in sync exactly when the id is unknown, the new task is non-empty, or the stored task was already empty; loading and error never change |
| `Sync.Remove` | frontend/src/App.tsx:65-74 | the store loses exactly the id and its order keeps the rest; the cache gets the `RemoveId` filter whatever the status; they stay in sync whether the server answered 204 or 404; loading and error never change |
| `Sync.RemoveErrorRow` | frontend/src/App.tsx:65-74 | for the row of a refused create, the store loses the key "undefined" if it held it and keeps the rest in order; the cache drops every error object whatever the status; unless "undefined" was a stored key, cache and store are back in sync |
| `Sync.Walkthrough` | backend/src/server.ts:26-67 | create "buy milk", list, update to "buy oat milk", list, delete, list gives `[{id, "buy milk"}]`, `[{id, "buy oat milk"}]`, `[]`; a second delete gets 404 |

Only `fetchTodos` sets `error` (frontend/src/App.tsx:23). `addTodo`,
`updateTodo` and `deleteTodo` only call `console.error` on a failure
(frontend/src/App.tsx:44, 61, 72), so their steps leave `loading` and `error`
alone.

## Left out

- Express setup, `bodyParser.json()`, `app.listen` and the port variable: framework plumbing with no store logic.
- The CORS middleware: it only sets constant response headers.
- `webcrypto.randomUUID()`: randomness, replaced by the `freshId` parameter. `Server.TodoStore.Create` does not require the id to be new. It follows `Map.set`: an id already present keeps its place and its todo is replaced.
- `fetch`, `res.json()`, `JSON.stringify`: network and serialisation. Each client step receives the outcome of its request as a parameter instead.
- Async scheduling: overlapping requests that complete out of order are not modelled. Each client step runs to completion before the next one.
- Client.TodoCache.FetchTodos: `setLoading(true)` and the outcome are one step, so the "Loading..." screen during a refetch is not a separate state of the model.
- Client.TodoCache.AddTodo: the task text is not a parameter, because the cache reacts only to the received body. The request body is connected to the server in `Sync.Add`.
- Solid signals, `createEffect`, the JSX markup, the input-text signal and `console.error`: reactive and UI glue. Only the `(todos, loading, error)` record and the view choice are kept.
- Non-string `task` values in a request body (numbers, booleans) that JavaScript truthiness would also accept: the body's task is an optional string.
- Sync.Add, Sync.Edit, Sync.Remove, Sync.RemoveErrorRow: the client always receives a `Response`. A client `Failure` is only modelled on `Client.TodoCache`, where it leaves the list unchanged, and is treated as a request the server never applied. A request the server applied whose reply was lost is not modelled.
- Sync.Edit: only edits of todo rows. An edit of an error row sends a PUT to "undefined"; the client side of it is stated by `Client.ReplaceTask` with a `None` id.
- Object identity: the server stores a todo object and writes its `task` field in place. The model stores todo values and replaces the map entry. Nothing else holds a reference to a stored todo, so this changes no observable reply.
