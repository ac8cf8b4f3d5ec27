/** The records the task list is made of. */
module Types {

  /** An opaque unique identifier (a UUID string in the application). */
  type Id = string

  /** A point in time, as the milliseconds a JavaScript `Date` holds. */
  type Timestamp = int

  datatype Priority = Low | Medium | High

  /** Which records the visible list shows, by completion state. */
  datatype Filter = All | Active | Completed

  /** One task. */
  datatype Todo = Todo(
    id: Id,
    text: string,
    completed: bool,
    priority: Priority,
    createdAt: Timestamp,
    category: string)

  datatype Option<T> = None | Some(value: T)
}
