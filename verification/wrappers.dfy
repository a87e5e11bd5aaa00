/** The optional value used for the task fields that a task file may leave out or set to null. */
module Wrappers {

  datatype Option<+T> = None | Some(value: T)
}
