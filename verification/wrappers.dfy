/** The optional value used where the service returns `None` for "nothing found". */
module Wrappers {

  datatype Option<+T> = None | Some(value: T)

}
