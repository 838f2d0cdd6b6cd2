/** The optional value the counters return where Python returns None. */
module Wrappers {

  datatype Option<+T> = None | Some(value: T)
}
