/** Values shared by the server and the client: the todo record and the
    optional `task` field of a request body. */
module Todos {

  datatype Option<T> = None | Some(value: T)

  /** A todo item, serialised by both tiers as `{ "id": …, "task": … }`. */
  datatype Todo = Todo(id: string, task: string)

  /** JavaScript truthiness of an optional string: a missing field
      (`undefined`) and the empty string are falsy, every other string is truthy. */
  predicate Truthy(s: Option<string>)
  {
    s.Some? && s.value != ""
  }
}
