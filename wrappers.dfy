/** An optional value, used where the program may find nothing or reject an answer. */
module Wrappers {

  datatype Option<+T> = None | Some(value: T)

}
