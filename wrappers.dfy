/** Missing values: a database column or attribute that is nil is `None`. */
module Wrappers {
  datatype Option<+T> = None | Some(value: T)
}
