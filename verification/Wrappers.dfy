/** A value that may be missing: a failed read, a parse error, a metric without a sample. */
module Wrappers {

  datatype Option<T> = None | Some(value: T)
}
