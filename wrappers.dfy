/** The optional value used for Ruby's `nil`-or-value variables and for parse results. */
module Wrappers {
  datatype Option<+T> = None | Some(value: T)
}
