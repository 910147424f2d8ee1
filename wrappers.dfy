/** The Option used for PHP's `false` return values. */
module Wrappers {

  /** None stands for PHP's `false`; Some carries a successful result. */
  datatype Option<+T> = None | Some(value: T)
}
