/** The optional value used where the original code admits a null reference. */
module Wrappers {

  datatype Option<+T> = None | Some(value: T)
}
