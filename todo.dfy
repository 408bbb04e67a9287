/**
 * The record and enumeration types of the to-do application.
 */
module TodoTypes {

  datatype Option<T> = None | Some(value: T)

  /** One to-do item. `createdAt` is a millisecond timestamp; `order` ranks the
      item inside its completion group. */
  datatype Todo = Todo(
    id: string,
    text: string,
    description: string,
    completed: bool,
    createdAt: int,
    order: int)

  /** Which items the list view shows. */
  datatype FilterType = All | Active | Completed

  datatype Theme = Light | Dark
}
