/** The optional value of the source's `Optional[int]` parameter and of a substring search. */
module Wrappers {

  datatype Option<+T> = None | Some(value: T)

}
